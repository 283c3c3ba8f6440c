/**
 The vectorised average: one pair of totals per group, updated by batches that carry group
 indices, nulls and a filter, and emitted a prefix of groups at a time. The theorem is that
 slot `g` is always one simple accumulator fed exactly the included rows of its group.
 */
module GroupedAverage {
  import opened Batches
  import opened Numeric
  import opened PowerSums
  import opened Runs
  import opened Average

  /** What the accumulator is asked to do, in the shape the engine passes it. */
  datatype Op =
    | Update(values: seq<Option<int>>, groups: seq<nat>, filter: Option<seq<Option<bool>>>, total: nat)
    | MergeStates(counts: seq<Option<int>>, sums: seq<Option<int>>, groups: seq<nat>,
                  filter: Option<seq<Option<bool>>>, total: nat)
    | EmitAll
    | EmitFirst(first: nat)
  {
    predicate IsBatch() {
      Update? || MergeStates?
    }

    /** Every column of a batch has a row for every group index. */
    predicate Shaped() {
      && (Update? ==> |values| == |groups|)
      && (MergeStates? ==> |counts| == |groups| && |sums| == |groups|)
      && (IsBatch() && filter.Some? ==> |filter.value| == |groups|)
    }
  }

  /** A filter that is NULL for a row excludes it. */
  predicate Included(filter: Option<seq<Option<bool>>>, row: nat)
    requires filter.Some? ==> row < |filter.value|
  {
    match filter
    case None => true
    case Some(flags) => flags[row] == Some(true)
  }

  /** What one row brings to its group, or `None` for a row the aggregate does not see. */
  function Contribution(op: Op, row: nat): Option<Totals>
    requires op.IsBatch() && op.Shaped() && row < |op.groups|
  {
    if !Included(op.filter, row) then None else
    match op
    case Update(values, _, _, _) => if values[row].None? then None else Some(Single(values[row].value))
    case MergeStates(counts, sums, _, _, _) => Some(PartialRow(counts[row], sums[row]))
  }

  /** The aggregate sees the row: there is no filter or it is true, and a value column has a value there. */
  predicate Sees(op: Op, row: nat)
    requires op.IsBatch() && op.Shaped() && row < |op.groups|
  {
    && (op.filter == None || op.filter.value[row] == Some(true))
    && (op.Update? ==> op.values[row].Some?)
  }

  /** What a row the aggregate sees stands for: one value, or the totals of its two state cells. */
  predicate StandsFor(op: Op, row: nat, t: Totals)
    requires op.IsBatch() && op.Shaped() && row < |op.groups|
  {
    if op.Update? then op.values[row] == Some(t.sum) && t.count == 1
    else ReadsAs(op.counts[row], t.count) && ReadsAs(op.sums[row], t.sum)
  }

  lemma ContributionMeans(op: Op, row: nat, t: Totals)
    requires op.IsBatch() && op.Shaped() && row < |op.groups|
    ensures Contribution(op, row) == Some(t) <==> Sees(op, row) && StandsFor(op, row, t)
    ensures Contribution(op, row).Some? <==> Sees(op, row)
  {
  }

  function Resized(slots: seq<Totals>, total: nat): (r: seq<Totals>)
    ensures |r| == total
    ensures forall g :: 0 <= g < total ==> r[g] == if g < |slots| then slots[g] else EMPTY
  {
    if total <= |slots| then slots[..total] else slots + seq(total - |slots|, _ => EMPTY)
  }

  // ----- the specification: one accumulator per group

  /** One simple accumulator fed a list of rows. */
  function Fold(t: Totals, rows: seq<Totals>): Option<Totals> {
    if rows == [] then Some(t) else
    var before :- Fold(t, rows[..|rows| - 1]);
    Merged(before, rows[|rows| - 1])
  }

  /** What the first `upTo` rows of a batch bring to group `g`, in order. */
  function RowsOf(op: Op, g: nat, upTo: nat): seq<Totals>
    requires op.IsBatch() && op.Shaped() && upTo <= |op.groups|
  {
    if upTo == 0 then [] else
    var row := upTo - 1;
    var c := Contribution(op, row);
    RowsOf(op, g, row) + if op.groups[row] == g && c.Some? then [c.value] else []
  }

  /** How many of the first `k` rows the aggregate sees in group `g`. */
  function Given(op: Op, g: nat, k: nat): nat
    requires op.IsBatch() && op.Shaped() && k <= |op.groups|
  {
    if k == 0 then 0 else Given(op, g, k - 1) + if op.groups[k - 1] == g && Sees(op, k - 1) then 1 else 0
  }

  lemma {:induction false} RowsCounted(op: Op, g: nat, k: nat)
    requires op.IsBatch() && op.Shaped() && k <= |op.groups|
    ensures |RowsOf(op, g, k)| == Given(op, g, k)
  {
    if k == 0 {
    } else {
      RowsCounted(op, g, k - 1);
      ContributionMeans(op, k - 1, EMPTY);
    }
  }

  /**
   A group is given exactly the rows of its own index that the aggregate sees: as many as there
   are, each in its place among them, for what it stands for.
   */
  lemma {:induction false} RowsByIndex(op: Op, g: nat, k: nat, i: nat)
    requires op.IsBatch() && op.Shaped() && i < k <= |op.groups|
    requires op.groups[i] == g && Sees(op, i)
    ensures |RowsOf(op, g, k)| == Given(op, g, k) && Given(op, g, i) < |RowsOf(op, g, k)|
    ensures StandsFor(op, i, RowsOf(op, g, k)[Given(op, g, i)])
  {
    RowsCounted(op, g, k);
    RowsCounted(op, g, k - 1);
    if i == k - 1 {
      ContributionMeans(op, i, EMPTY);
      ContributionMeans(op, i, Contribution(op, i).value);
    } else {
      RowsByIndex(op, g, k - 1, i);
    }
  }

  /** What a whole history brought to the group now in slot `g`. */
  function HistoryOf(ops: seq<Op>, g: nat): seq<Totals>
    requires forall op <- ops :: op.Shaped()
  {
    if ops == [] then [] else
    var before, op := ops[..|ops| - 1], ops[|ops| - 1];
    match op
    case EmitAll => []
    case EmitFirst(first) => HistoryOf(before, g + first)
    case _ => HistoryOf(before, g) + RowsOf(op, g, |op.groups|)
  }

  // ----- the steps

  /** The first `k` rows of a batch merged into the slots, one row at a time. */
  function ApplyRows(slots: seq<Totals>, op: Op, k: nat): Option<seq<Totals>>
    requires op.IsBatch() && op.Shaped() && k <= |op.groups|
  {
    if k == 0 then Some(slots) else
    var before :- ApplyRows(slots, op, k - 1);
    var group := op.groups[k - 1];
    match Contribution(op, k - 1)
    case None => Some(before)
    case Some(partial) =>
      if group >= |before| then None else
      var merged :- Merged(before[group], partial);
      Some(before[group := merged])
  }

  function Apply(slots: seq<Totals>, op: Op): Option<seq<Totals>>
    requires op.Shaped()
  {
    match op
    case EmitAll => Some([])
    case EmitFirst(first) => if first <= |slots| then Some(slots[first..]) else None
    case _ => ApplyRows(Resized(slots, op.total), op, |op.groups|)
  }

  function Replay(ops: seq<Op>): Option<seq<Totals>>
    requires forall op <- ops :: op.Shaped()
  {
    if ops == [] then Some([]) else
    var slots :- Replay(ops[..|ops| - 1]);
    Apply(slots, ops[|ops| - 1])
  }

  /** The engine never takes a group away except by emitting it. */
  predicate Growing(ops: seq<Op>)
    requires forall op <- ops :: op.Shaped()
  {
    ops == [] ||
    var before, op := ops[..|ops| - 1], ops[|ops| - 1];
    Growing(before) && (op.IsBatch() && Replay(before).Some? ==> |Replay(before).value| <= op.total)
  }

  lemma {:induction false} ReplayOne(ops: seq<Op>, op: Op)
    requires op.Shaped() && forall o <- ops :: o.Shaped()
    ensures forall o <- ops + [op] :: o.Shaped()
    ensures Replay(ops).Some? ==> Replay(ops + [op]) == Apply(Replay(ops).value, op)
  {
    assert (ops + [op])[..|ops|] == ops;
  }

  // ----- refinement

  /** A batch succeeds exactly when every group's own accumulator does, slot by slot. */
  predicate BatchRefines(slots: seq<Totals>, op: Op, k: nat)
    requires op.IsBatch() && op.Shaped() && k <= |op.groups|
  {
    && (forall row :: 0 <= row < k && Contribution(op, row).Some? ==> op.groups[row] < |slots|)
    && (forall g :: 0 <= g < |slots| ==> Fold(slots[g], RowsOf(op, g, k)).Some?)
  }

  lemma FoldOne(t: Totals, rows: seq<Totals>, c: Totals)
    ensures Fold(t, rows + [c]) == (var before :- Fold(t, rows); Merged(before, c))
  {
    assert (rows + [c])[..|rows|] == rows;
  }

  lemma {:induction false} FoldAppend(t: Totals, a: seq<Totals>, b: seq<Totals>)
    ensures Fold(t, a + b) == (var mid :- Fold(t, a); Fold(mid, b))
  {
    if b == [] {
      assert a + b == a;
    } else {
      var init, last := b[..|b| - 1], b[|b| - 1];
      FoldAppend(t, a, init);
      assert a + b == (a + init) + [last];
      FoldOne(t, a + init, last);
    }
  }

  /** One row moves exactly the slot of its group. */
  lemma {:induction false} RowStep(op: Op, g: nat, k: nat, t: Totals)
    requires op.IsBatch() && op.Shaped() && 0 < k <= |op.groups|
    ensures var c := Contribution(op, k - 1);
            var before := Fold(t, RowsOf(op, g, k - 1));
            Fold(t, RowsOf(op, g, k))
            == if op.groups[k - 1] == g && c.Some? then (var x :- before; Merged(x, c.value)) else before
  {
    var c := Contribution(op, k - 1);
    if op.groups[k - 1] == g && c.Some? {
      FoldOne(t, RowsOf(op, g, k - 1), c.value);
    } else {
      assert RowsOf(op, g, k) == RowsOf(op, g, k - 1);
    }
  }

  /** Slot by slot, `out` is what the first `k` rows make of `slots`. */
  ghost predicate FoldsTo(slots: seq<Totals>, op: Op, k: nat, out: seq<Totals>)
    requires op.IsBatch() && op.Shaped() && k <= |op.groups|
  {
    |out| == |slots| && forall g :: 0 <= g < |out| ==> Fold(slots[g], RowsOf(op, g, k)) == Some(out[g])
  }

  lemma ApplyRow(slots: seq<Totals>, op: Op, k: nat, before: seq<Totals>)
    requires op.IsBatch() && op.Shaped() && 0 < k <= |op.groups|
    requires ApplyRows(slots, op, k - 1) == Some(before)
    ensures var c, group := Contribution(op, k - 1), op.groups[k - 1];
            ApplyRows(slots, op, k)
            == if c.None? then Some(before)
               else if group < |before| && Merged(before[group], c.value).Some?
               then Some(before[group := Merged(before[group], c.value).value]) else None
  {
  }

  /** One more row refines as far as its own slot can take it. */
  lemma RefinesRow(slots: seq<Totals>, op: Op, k: nat, before: seq<Totals>)
    requires op.IsBatch() && op.Shaped() && 0 < k <= |op.groups|
    requires BatchRefines(slots, op, k - 1) && FoldsTo(slots, op, k - 1, before)
    ensures var c, group := Contribution(op, k - 1), op.groups[k - 1];
            BatchRefines(slots, op, k)
            <==> c.Some? ==> group < |before| && Merged(before[group], c.value).Some?
  {
    var c, group := Contribution(op, k - 1), op.groups[k - 1];
    forall g | 0 <= g < |slots|
      ensures Fold(slots[g], RowsOf(op, g, k)) == if group == g && c.Some? then Merged(before[g], c.value) else Some(before[g])
    {
      RowStep(op, g, k, slots[g]);
    }
    if c.Some? && group < |slots| {
      assert Fold(slots[group], RowsOf(op, group, k)) == Merged(before[group], c.value);
    }
  }

  lemma FoldsRow(slots: seq<Totals>, op: Op, k: nat, before: seq<Totals>, out: seq<Totals>)
    requires op.IsBatch() && op.Shaped() && 0 < k <= |op.groups|
    requires FoldsTo(slots, op, k - 1, before)
    requires var c, group := Contribution(op, k - 1), op.groups[k - 1];
             if c.None? then out == before
             else group < |before| && Merged(before[group], c.value).Some?
                  && out == before[group := Merged(before[group], c.value).value]
    ensures FoldsTo(slots, op, k, out)
  {
    forall g | 0 <= g < |slots|
      ensures Fold(slots[g], RowsOf(op, g, k)) == Some(out[g])
    {
      RowStep(op, g, k, slots[g]);
    }
  }

  lemma RefinesEarlier(slots: seq<Totals>, op: Op, k: nat)
    requires op.IsBatch() && op.Shaped() && 0 < k <= |op.groups|
    requires BatchRefines(slots, op, k)
    ensures BatchRefines(slots, op, k - 1)
  {
    forall g | 0 <= g < |slots|
      ensures Fold(slots[g], RowsOf(op, g, k - 1)).Some?
    {
      RowStep(op, g, k, slots[g]);
    }
  }

  lemma {:induction false} BatchExact(slots: seq<Totals>, op: Op, k: nat)
    requires op.IsBatch() && op.Shaped() && k <= |op.groups|
    ensures ApplyRows(slots, op, k).Some? <==> BatchRefines(slots, op, k)
    ensures ApplyRows(slots, op, k).Some? ==> FoldsTo(slots, op, k, ApplyRows(slots, op, k).value)
  {
    if k == 0 {
    } else {
      BatchExact(slots, op, k - 1);
      if ApplyRows(slots, op, k - 1).None? {
        if BatchRefines(slots, op, k) {
          RefinesEarlier(slots, op, k);
        }
      } else {
        var before := ApplyRows(slots, op, k - 1).value;
        ApplyRow(slots, op, k, before);
        RefinesRow(slots, op, k, before);
        if ApplyRows(slots, op, k).Some? {
          FoldsRow(slots, op, k, before, ApplyRows(slots, op, k).value);
        }
      }
    }
  }

  /** A group past the slots has brought nothing, or the batch would have been refused. */
  lemma {:induction false} NoRowsPastTheSlots(slots: seq<Totals>, op: Op, g: nat, k: nat)
    requires op.IsBatch() && op.Shaped() && k <= |op.groups|
    requires ApplyRows(slots, op, k).Some? && |slots| <= g
    ensures RowsOf(op, g, k) == []
  {
    if k == 0 {
    } else {
      NoRowsPastTheSlots(slots, op, g, k - 1);
      BatchExact(slots, op, k - 1);
    }
  }

  /** Slot `g` is one simple accumulator fed this history; without a slot there is none. */
  ghost predicate SlotHolds(slots: seq<Totals>, history: seq<Totals>, g: nat) {
    if g < |slots| then Fold(EMPTY, history) == Some(slots[g]) else history == []
  }

  /** A batch takes a slot that held its group's accumulator to one that does. */
  lemma BatchKeepsSlot(slots: seq<Totals>, op: Op, history: seq<Totals>, g: nat)
    requires op.IsBatch() && op.Shaped() && Apply(slots, op).Some? && |slots| <= op.total
    requires SlotHolds(slots, history, g)
    ensures SlotHolds(Apply(slots, op).value, history + RowsOf(op, g, |op.groups|), g)
  {
    var wide, rows := Resized(slots, op.total), RowsOf(op, g, |op.groups|);
    BatchExact(wide, op, |op.groups|);
    FoldAppend(EMPTY, history, rows);
    if op.total <= g {
      NoRowsPastTheSlots(wide, op, g, |op.groups|);
    }
  }

  lemma EmissionKeepsSlot(slots: seq<Totals>, first: nat, history: seq<Totals>, g: nat)
    requires first <= |slots| && SlotHolds(slots, history, g + first)
    ensures SlotHolds(slots[first..], history, g)
  {
  }

  /**
   Over every history of batches and emissions that was not refused, slot `g` holds one
   simple accumulator fed exactly the included rows of the group now in that slot, and a
   group without a slot has brought nothing.
   */
  lemma {:induction false} SlotsAreAccumulators(ops: seq<Op>, g: nat)
    requires forall op <- ops :: op.Shaped()
    requires Growing(ops) && Replay(ops).Some?
    ensures SlotHolds(Replay(ops).value, HistoryOf(ops, g), g)
  {
    if ops == [] {
    } else {
      var before, op := ops[..|ops| - 1], ops[|ops| - 1];
      var slots := Replay(before).value;
      assert op in ops;
      match op
      case EmitAll =>
      case EmitFirst(first) =>
        SlotsAreAccumulators(before, g + first);
        EmissionKeepsSlot(slots, first, HistoryOf(before, g + first), g);
      case _ =>
        SlotsAreAccumulators(before, g);
        BatchKeepsSlot(slots, op, HistoryOf(before, g), g);
    }
  }

  // ----- a state shipped is the state merged back

  predicate Carryable(t: Totals) {
    IsU64(t.count) && Abs(t.sum) < DECIMAL128_CEILING
  }

  predicate AllCarryable(slots: seq<Totals>) {
    forall g :: 0 <= g < |slots| ==> Carryable(slots[g])
  }

  lemma {:induction false} RowsCarryable(slots: seq<Totals>, op: Op, k: nat)
    requires op.IsBatch() && op.Shaped() && k <= |op.groups|
    requires AllCarryable(slots) && ApplyRows(slots, op, k).Some?
    ensures AllCarryable(ApplyRows(slots, op, k).value)
  {
    if k == 0 {
    } else {
      RowsCarryable(slots, op, k - 1);
      ApplyRow(slots, op, k, ApplyRows(slots, op, k - 1).value);
    }
  }

  /** Whatever rows and states arrived, every slot fits the columns its state is sent in. */
  lemma {:induction false} ReplayCarryable(ops: seq<Op>)
    requires (forall op <- ops :: op.Shaped()) && Replay(ops).Some?
    ensures AllCarryable(Replay(ops).value)
  {
    if ops == [] {
    } else {
      var before, op := ops[..|ops| - 1], ops[|ops| - 1];
      ReplayCarryable(before);
      if op.IsBatch() {
        RowsCarryable(Resized(Replay(before).value, op.total), op, |op.groups|);
      }
    }
  }

  /** The batch a final aggregate is handed for the state columns of `slots`. */
  function Shipped(slots: seq<Totals>): (op: Op)
    ensures op.IsBatch() && op.Shaped() && op.groups == seq(|slots|, g => g)
  {
    MergeStates(seq(|slots|, g requires 0 <= g < |slots| => Some(slots[g].count)),
                seq(|slots|, g requires 0 <= g < |slots| => Some(slots[g].sum)),
                seq(|slots|, g => g), None, |slots|)
  }

  /** Row `i` of a batch brings `slots[i]` to group `i`. */
  ghost predicate OnePerSlot(op: Op, slots: seq<Totals>) {
    && op.IsBatch() && op.Shaped() && |op.groups| == |slots| == op.total
    && forall i :: 0 <= i < |slots| ==> op.groups[i] == i && Contribution(op, i) == Some(slots[i])
  }

  lemma ShippedOnePerSlot(slots: seq<Totals>)
    ensures OnePerSlot(Shipped(slots), slots)
  {
  }

  lemma {:induction false} OneRowEach(op: Op, slots: seq<Totals>, g: nat, k: nat)
    requires OnePerSlot(op, slots) && g < |slots| && k <= |slots|
    ensures RowsOf(op, g, k) == if g < k then [slots[g]] else []
  {
    if k == 0 {
    } else {
      OneRowEach(op, slots, g, k - 1);
      assert op.groups[k - 1] == k - 1 && Contribution(op, k - 1) == Some(slots[k - 1]);
    }
  }

  lemma FoldSingle(t: Totals)
    requires Carryable(t)
    ensures Fold(EMPTY, [t]) == Some(t)
  {
    FoldOne(EMPTY, [], t);
    assert [] + [t] == [t];
  }

  lemma {:induction false} CarryableRoundTrip(op: Op, slots: seq<Totals>)
    requires AllCarryable(slots) && OnePerSlot(op, slots)
    ensures Apply([], op) == Some(slots)
  {
    var empty := Resized([], |slots|);
    forall g | 0 <= g < |slots|
      ensures Fold(empty[g], RowsOf(op, g, |slots|)) == Some(slots[g])
    {
      OneRowEach(op, slots, g, |slots|);
      FoldSingle(slots[g]);
    }
    BatchExact(empty, op, |slots|);
    assert BatchRefines(empty, op, |slots|);
    assert ApplyRows(empty, op, |slots|).value == slots;
  }

  /** Merging the state any history leaves into an empty accumulator rebuilds it slot by slot. */
  lemma StateRoundTrip(ops: seq<Op>)
    requires (forall op <- ops :: op.Shaped()) && Replay(ops).Some?
    ensures Apply([], Shipped(Replay(ops).value)) == Some(Replay(ops).value)
  {
    ReplayCarryable(ops);
    ShippedOnePerSlot(Replay(ops).value);
    CarryableRoundTrip(Shipped(Replay(ops).value), Replay(ops).value);
  }

  // ----- the answer of a group

  /** Each row a group was given holds the totals of some run over `bigint`s: a value, or a shard. */
  ghost predicate RowsOfRuns(rows: seq<Totals>, runs: seq<Run>) {
    && |rows| == |runs|
    && forall i :: 0 <= i < |rows| ==> Legal(runs[i], I64_MAX) && Exec(runs[i]) == Some(rows[i])
  }

  /** Folding rows is merging the runs they came out of. */
  lemma {:induction false} FoldIsRun(rows: seq<Totals>, runs: seq<Run>)
    requires RowsOfRuns(rows, runs)
    ensures Legal(MergeEach(Start, runs), I64_MAX)
    ensures Fold(EMPTY, rows) == Exec(MergeEach(Start, runs))
  {
    if rows == [] {
    } else {
      FoldIsRun(rows[..|rows| - 1], runs[..|runs| - 1]);
    }
  }

  /**
   End to end over every history: a group answers NULL exactly when its rows hold no value,
   and otherwise the rounded average of all of them, those the merged states carried included.
   */
  lemma {:induction false} GroupAverageExact(ops: seq<Op>, g: nat, runs: seq<Run>)
    requires (forall op <- ops :: op.Shaped()) && Growing(ops) && Replay(ops).Some?
    requires g < |Replay(ops).value| && RowsOfRuns(HistoryOf(ops, g), runs)
    ensures var all, t := Frame(MergeEach(Start, runs)), Replay(ops).value[g];
            && 0 <= t.count
            && (ExactAverage(t) == Answer(None) <==> |all| == 0)
            && (|all| != 0 ==>
                  && ExactAverage(t).Answer? && ExactAverage(t).value.Some?
                  && IsRoundedAverage(ExactAverage(t).value.value, BagSum(all, 1), |all|))
  {
    SlotsAreAccumulators(ops, g);
    FoldIsRun(HistoryOf(ops, g), runs);
    RunTotals(MergeEach(Start, runs));
    RunAverageExact(MergeEach(Start, runs));
  }

  /** One value per run: the run of a row of a value column. */
  function ValueRuns(values: seq<int>): seq<Run> {
    seq(|values|, i requires 0 <= i < |values| => Add(Start, values[i]))
  }

  function Singles(values: seq<int>): seq<Totals> {
    seq(|values|, i requires 0 <= i < |values| => Single(values[i]))
  }

  lemma {:induction false} ValueRunsFrame(values: seq<int>)
    ensures Frame(MergeEach(Start, ValueRuns(values))) == multiset(values)
  {
    if values == [] {
    } else {
      var init, last := values[..|values| - 1], values[|values| - 1];
      ValueRunsFrame(init);
      assert values == init + [last];
      var runs := ValueRuns(values);
      assert runs[..|runs| - 1] == ValueRuns(init) && runs[|runs| - 1] == Add(Start, last);
      assert Frame(Add(Start, last)) == multiset{last};
    }
  }

  lemma SinglesOfRuns(values: seq<int>)
    requires forall v <- values :: IsI64(v)
    ensures RowsOfRuns(Singles(values), ValueRuns(values))
  {
    var runs := ValueRuns(values);
    forall i | 0 <= i < |values|
      ensures Legal(runs[i], I64_MAX) && Exec(runs[i]) == Some(Singles(values)[i])
    {
      assert values[i] in values;
      MergedExact(EMPTY, Single(values[i]));
    }
  }

  /** A group fed values alone answers the rounded average of exactly those values. */
  lemma GroupAverageOfValues(ops: seq<Op>, g: nat, values: seq<int>)
    requires (forall op <- ops :: op.Shaped()) && Growing(ops) && Replay(ops).Some?
    requires g < |Replay(ops).value| && HistoryOf(ops, g) == Singles(values) && values != []
    requires forall v <- values :: IsI64(v)
    ensures var t := Replay(ops).value[g];
            && 0 <= t.count && ExactAverage(t).Answer? && ExactAverage(t).value.Some?
            && IsRoundedAverage(ExactAverage(t).value.value, BagSum(multiset(values), 1), |values|)
  {
    SinglesOfRuns(values);
    ValueRunsFrame(values);
    GroupAverageExact(ops, g, ValueRuns(values));
  }

  // ----- the accumulator

  class ExactAverageGroups {
    var totals: seq<Totals>
    ghost var ops: seq<Op>

    ghost predicate Valid()
      reads this
    {
      && (forall op <- ops :: op.Shaped())
      && Replay(ops) == Some(totals)
    }

    constructor ()
      ensures Valid() && ops == []
    {
      totals, ops := [], [];
    }

    /** Make room for `total` groups, dropping any past it as `Vec::resize` does. */
    method Widen(total: nat)
      modifies this`totals
      ensures |totals| == total
      ensures forall g :: 0 <= g < total ==> totals[g] == if g < |old(totals)| then old(totals)[g] else EMPTY
    {
      totals := Resized(totals, total);
    }

    /**
     Fold one row's totals into one group; an index past the slots is an internal error. A
     refusal can leave the group's own slot half updated, as it does in the source, and no other.
     */
    method MergeRow(group: nat, partial: Totals) returns (status: Status)
      modifies this`totals
      ensures status == InternalError <==> |old(totals)| <= group
      ensures status == Done <==> group < |old(totals)| && Merged(old(totals)[group], partial).Some?
      ensures |totals| == |old(totals)|
      ensures status == Done ==> totals[group] == Merged(old(totals)[group], partial).value
      ensures forall g :: 0 <= g < |totals| && g != group ==> totals[g] == old(totals)[g]
    {
      if group >= |totals| {
        return InternalError;
      }
      var t := totals[group];
      if !IsU64(t.count + partial.count) {
        return Refused;
      }
      totals := totals[group := Totals(t.count + partial.count, t.sum)];
      if !IsI128(t.sum + partial.sum) {
        return Refused;
      }
      totals := totals[group := Totals(t.count + partial.count, t.sum + partial.sum)];
      status := if IsI128(Abs(t.sum + partial.sum)) && Abs(t.sum + partial.sum) < DECIMAL128_CEILING then Done else Refused;
    }

    /** A value batch or a state batch: both loops are the same walk over the group indices. */
    method Batch(op: Op) returns (status: Status)
      requires Valid() && op.IsBatch() && op.Shaped()
      modifies this
      ensures status == Done ==> Valid() && ops == old(ops) + [op]
      ensures status == Done <==> Apply(old(totals), op).Some?
    {
      ghost var wide := Resized(totals, op.total);
      Widen(op.total);
      assert totals == wide;
      for row := 0 to |op.groups|
        invariant ApplyRows(wide, op, row) == Some(totals)
        invariant ops == old(ops)
      {
        ApplyRow(wide, op, row + 1, totals);
        var contribution := Contribution(op, row);
        if contribution.Some? {
          ghost var before := totals;
          var merged := MergeRow(op.groups[row], contribution.value);
          if merged != Done {
            RefusedRows(wide, op, row + 1);
            return merged;
          }
          assert totals == before[op.groups[row] := totals[op.groups[row]]];
        }
      }
      ReplayOne(ops, op);
      ops := ops + [op];
      status := Done;
    }

    /** The first groups, or all of them, taken out of the state. */
    method Emit(first: Option<nat>) returns (emitted: seq<Totals>)
      requires Valid() && (first.Some? ==> first.value <= |totals|)
      modifies this
      ensures Valid() && ops == old(ops) + [if first.None? then EmitAll else EmitFirst(first.value)]
      ensures emitted + totals == old(totals)
      ensures |emitted| == if first.None? then |old(totals)| else first.value
    {
      ghost var op := if first.None? then EmitAll else EmitFirst(first.value);
      ReplayOne(ops, op);
      if first.None? {
        emitted, totals := totals, [];
      } else {
        emitted, totals := totals[..first.value], totals[first.value..];
      }
      ops := ops + [op];
    }

    /** The answers of the emitted groups, refused if any of them is. */
    method Evaluate(first: Option<nat>) returns (answers: Option<seq<Option<int>>>)
      requires Valid() && (first.Some? ==> first.value <= |totals|)
      modifies this
      ensures forall t <- old(totals) :: 0 <= t.count
      ensures Valid()
      ensures var k := if first.None? then |old(totals)| else first.value;
              && totals == old(totals)[k..]
              && (answers.Some? <==> forall g :: 0 <= g < k ==> ExactAverage(old(totals)[g]).Answer?)
              && (answers.Some? ==>
                    && |answers.value| == k
                    && forall g :: 0 <= g < k ==> ExactAverage(old(totals)[g]) == Answer(answers.value[g]))
    {
      ReplayCarryable(ops);
      ghost var all := totals;
      var emitted := Emit(first);
      assert forall g :: 0 <= g < |emitted| ==> emitted[g] == all[g] && Carryable(all[g]);
      var built := [];
      for g := 0 to |emitted|
        invariant Valid() && |built| == g
        invariant forall j :: 0 <= j < g ==> ExactAverage(emitted[j]) == Answer(built[j])
      {
        var outcome := ExactAverage(emitted[g]);
        if outcome.OutOfRange? {
          return None;
        }
        built := built + [outcome.value];
      }
      answers := Some(built);
    }
  }

  lemma {:induction false} RefusedRows(slots: seq<Totals>, op: Op, k: nat)
    requires op.IsBatch() && op.Shaped() && k <= |op.groups|
    requires ApplyRows(slots, op, k).None?
    ensures ApplyRows(slots, op, |op.groups|).None?
    decreases |op.groups| - k
  {
    if k < |op.groups| {
      RefusedRows(slots, op, k + 1);
    }
  }
}
