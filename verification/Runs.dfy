/**
 The life of one aggregate group across a cluster, as a tree of steps: values accumulated,
 values retracted from a sliding frame, and another shard's partial state merged in. A tree
 describes every way of splitting rows over shards and every order of merging them.
 */
module Runs {

  datatype Run =
    | Start
    | Add(before: Run, value: int)
    | Retract(before: Run, value: int)
    | Merge(before: Run, shard: Run)

  /** The values in the group after the run. */
  ghost function Frame(run: Run): multiset<int> {
    match run
    case Start => multiset{}
    case Add(before, value) => Frame(before) + multiset{value}
    case Retract(before, value) => Frame(before) - multiset{value}
    case Merge(before, shard) => Frame(before) + Frame(shard)
  }

  /** Only values of the column's type arrive, and only values still in the frame are retracted. */
  ghost predicate Legal(run: Run, max: int) {
    match run
    case Start => true
    case Add(before, value) => Legal(before, max) && -max - 1 <= value <= max
    case Retract(before, value) => Legal(before, max) && value in Frame(before)
    case Merge(before, shard) => Legal(before, max) && Legal(shard, max)
  }

  lemma {:induction false} FrameInRange(run: Run, max: int)
    requires Legal(run, max)
    ensures forall u <- Frame(run) :: -max - 1 <= u <= max
  {
    match run
    case Start =>
    case Add(before, _) => FrameInRange(before, max);
    case Retract(before, _) => FrameInRange(before, max);
    case Merge(before, shard) =>
      FrameInRange(before, max);
      FrameInRange(shard, max);
  }

  /** Everything the run was ever given, retracted or not. */
  ghost function Added(run: Run): multiset<int> {
    match run
    case Start => multiset{}
    case Add(before, value) => Added(before) + multiset{value}
    case Retract(before, _) => Added(before)
    case Merge(before, shard) => Added(before) + Added(shard)
  }

  predicate RetractFree(run: Run) {
    match run
    case Start => true
    case Add(before, _) => RetractFree(before)
    case Retract(_, _) => false
    case Merge(before, shard) => RetractFree(before) && RetractFree(shard)
  }

  lemma {:induction false} FrameWithinAdded(run: Run)
    ensures Frame(run) <= Added(run)
    ensures RetractFree(run) ==> Frame(run) == Added(run)
  {
    match run
    case Start =>
    case Add(before, _) => FrameWithinAdded(before);
    case Retract(before, _) => FrameWithinAdded(before);
    case Merge(before, shard) =>
      FrameWithinAdded(before);
      FrameWithinAdded(shard);
  }
}
