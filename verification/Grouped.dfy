/**
 The rows an ordered-set aggregate collects: batches kept apart as they come in, partial
 states merged as further batches, everything joined once when the answer is asked for.
 */
module Grouped {
  import opened Numeric

  /** A value of the ordered column; the integer stands for its place in the type's own order. */
  type Cell = Option<int>

  function Joined(parts: seq<seq<Cell>>): seq<Cell> {
    if parts == [] then [] else Joined(parts[..|parts| - 1]) + parts[|parts| - 1]
  }

  function RowsOf(list: Option<seq<Cell>>): seq<Cell> {
    match list
    case Some(rows) => rows
    case None => []
  }

  /** How a group came to be: batches of rows and partial states of other groups, in any order. */
  datatype Gathering =
    | Nothing
    | Batch(before: Gathering, rows: seq<Cell>)
    | Merge(before: Gathering, part: Gathering)

  function Gathered(g: Gathering): seq<Cell> {
    match g
    case Nothing => []
    case Batch(before, rows) => Gathered(before) + rows
    case Merge(before, part) => Gathered(before) + Gathered(part)
  }

  function BatchesOf(g: Gathering): multiset<Cell> {
    match g
    case Nothing => multiset{}
    case Batch(before, rows) => BatchesOf(before) + multiset(rows)
    case Merge(before, part) => BatchesOf(before) + BatchesOf(part)
  }

  /** However the rows were spread over batches and merges, none is lost and none counted twice. */
  lemma {:induction false} GatheredRows(g: Gathering)
    ensures multiset(Gathered(g)) == BatchesOf(g)
  {
    match g
    case Nothing =>
    case Batch(before, rows) =>
      GatheredRows(before);
    case Merge(before, part) =>
      GatheredRows(before);
      GatheredRows(part);
  }

  function MergedAll(g: Gathering, parts: seq<Gathering>): Gathering {
    if parts == [] then g else Merge(MergedAll(g, parts[..|parts| - 1]), parts[|parts| - 1])
  }

  /** Each list of a state column holds the rows of one group. */
  ghost predicate ComeFrom(state: seq<Option<seq<Cell>>>, parts: seq<Gathering>) {
    && |state| == |parts|
    && forall i :: 0 <= i < |state| ==>
         state[i] == Some(Gathered(parts[i])) || (state[i] == None && Gathered(parts[i]) == [])
  }

  class Group {
    var values: seq<seq<Cell>>
    ghost var gathering: Gathering

    ghost predicate Valid()
      reads this
    {
      Joined(values) == Gathered(gathering) && forall i :: 0 <= i < |values| ==> values[i] != []
    }

    constructor ()
      ensures Valid() && gathering == Nothing
    {
      values, gathering := [], Nothing;
    }

    /** Keep one part, unless it is empty. */
    method Push(rows: seq<Cell>, ghost next: Gathering)
      requires Valid() && Gathered(next) == Gathered(gathering) + rows
      modifies this
      ensures Valid() && gathering == next
      ensures Joined(values) == old(Joined(values)) + rows
    {
      if rows != [] {
        assert (values + [rows])[..|values|] == values;
        values := values + [rows];
      }
      gathering := next;
    }

    /** Take in the first column of the batch; a call without one is refused and changes nothing. */
    method UpdateBatch(columns: seq<seq<Cell>>) returns (ok: bool)
      requires Valid()
      modifies this
      ensures Valid()
      ensures ok <==> columns != []
      ensures gathering == if ok then Batch(old(gathering), columns[0]) else old(gathering)
      ensures !ok ==> values == old(values)
    {
      if columns == [] {
        return false;
      }
      Push(columns[0], Batch(gathering, columns[0]));
      return true;
    }

    /** Take in every list of the state column; `parts` names the groups the lists came from. */
    method MergeBatch(states: seq<seq<Option<seq<Cell>>>>, ghost parts: seq<Gathering>) returns (ok: bool)
      requires Valid()
      requires states != [] ==> ComeFrom(states[0], parts)
      modifies this
      ensures Valid()
      ensures ok <==> states != []
      ensures gathering == if ok then MergedAll(old(gathering), parts) else old(gathering)
      ensures !ok ==> values == old(values)
    {
      if states == [] {
        return false;
      }
      var state := states[0];
      ghost var was := gathering;
      assert parts[..0] == [];
      for i := 0 to |state|
        invariant Valid()
        invariant gathering == MergedAll(was, parts[..i])
      {
        assert parts[..i + 1][..i] == parts[..i];
        assert RowsOf(state[i]) == Gathered(parts[i]);
        Push(RowsOf(state[i]), Merge(gathering, parts[i]));
      }
      assert parts[..|state|] == parts;
      return true;
    }

    /** Every value seen so far, in one column. */
    function Accumulated(): (column: seq<Cell>)
      requires Valid()
      reads this
      ensures column == Gathered(gathering)
    {
      if |values| == 1 then
        assert Joined(values) == values[0] by {
          assert values[..0] == [];
          assert Joined(values[..0]) == [];
        }
        values[0]
      else Joined(values)
    }

    /** The one state cell: a list of every value seen. */
    function State(): (state: seq<Option<seq<Cell>>>)
      requires Valid()
      reads this
      ensures ComeFrom(state, [gathering])
    {
      [Some(Accumulated())]
    }
  }
}
