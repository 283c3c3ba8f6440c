/**
 `mode()`: the most frequent value of a group, found as the longest run of the sorted column.
 Nulls are not candidates, and of two values equally frequent the first in the clause's own
 order wins.
 */
module Mode {
  import opened Arrangement
  import opened Numeric
  import opened Grouped
  import opened Ordering

  function NullsLast(descending: bool): SortOptions {
    SortOptions(descending, false)
  }

  /** The column read in the given order of its rows. */
  function Ranked(values: seq<Cell>, order: seq<nat>): (ranked: seq<Cell>)
    requires forall i :: 0 <= i < |order| ==> order[i] < |values|
    ensures |ranked| == |order| && forall i :: 0 <= i < |order| ==> ranked[i] == values[order[i]]
  {
    seq(|order|, i requires 0 <= i < |order| => values[order[i]])
  }

  function Indices(n: nat): seq<nat> {
    seq(n, i => i)
  }

  /** What the sort promises: every row once, in the clause's order with the nulls at the end. */
  ghost predicate IsSortOrder(values: seq<Cell>, descending: bool, order: seq<nat>) {
    && (forall i :: 0 <= i < |order| ==> order[i] < |values|)
    && multiset(order) == multiset(Indices(|values|))
    && Sorted(Ranked(values, order), SortOptions(descending, false))
  }

  /** `v` is the most frequent value of the rows; of any as frequent the smallest, or descending the largest. */
  ghost predicate IsMode(rows: multiset<Cell>, descending: bool, v: Cell) {
    && v.Some? && v in rows
    && forall u :: u in rows && u.Some? && u != v ==>
         rows[u] < rows[v] || (rows[u] == rows[v] && if descending then u.value < v.value else v.value < u.value)
  }

  /** The answer for a group: its mode, or NULL when no row holds a value. */
  ghost predicate IsModeAnswer(rows: multiset<Cell>, descending: bool, answer: Cell) {
    if answer.None? then forall u :: u in rows ==> u.None? else IsMode(rows, descending, answer)
  }

  /** A group has one answer, whatever its rows' arrangement, batches and shards. */
  lemma ModeUnique(rows: multiset<Cell>, descending: bool, v: Cell, w: Cell)
    requires IsModeAnswer(rows, descending, v) && IsModeAnswer(rows, descending, w)
    ensures v == w
  {
    assert v.Some? ==> v in rows;
    assert w.Some? ==> w in rows;
  }

  /** Sorting keeps every row. */
  lemma SortKeepsRows(values: seq<Cell>, descending: bool, order: seq<nat>)
    requires IsSortOrder(values, descending, order)
    ensures |order| == |values|
    ensures multiset(Ranked(values, order)) == multiset(values)
  {
    var indices := Indices(|values|);
    var read := (i: nat) => if i < |values| then values[i] else None;
    SameLength(order, indices);
    MappedRearranged(read, order, indices);
    assert Mapped(read, order) == Ranked(values, order);
    assert Mapped(read, indices) == values;
  }

  /** In order, the values fill the front and the nulls the rest. */
  lemma {:induction false} NullsAtEnd(s: seq<Cell>, descending: bool)
    requires InOrder(s, NullsLast(descending))
    ensures multiset(s)[None] <= |s|
    ensures forall i :: 0 <= i < |s| ==> (s[i].Some? <==> i < |s| - multiset(s)[None])
  {
    if s == [] {
    } else {
      var n := |s| - 1;
      NullsAtEnd(s[..n], descending);
      assert s == s[..n] + [s[n]];
      if s[n].Some? {
        forall i | 0 <= i < n
          ensures s[..n][i].Some?
        {
          assert !Ahead(s[n], s[i], NullsLast(descending));
        }
        assert None !in multiset(s[..n]);
      }
    }
  }

  /** The sorted column: every row, the values at the front. */
  lemma SortedColumn(values: seq<Cell>, descending: bool, order: seq<nat>)
    requires IsSortOrder(values, descending, order)
    ensures |order| == |values| && multiset(values)[None] <= |values|
    ensures multiset(Ranked(values, order)) == multiset(values)
    ensures InOrder(Ranked(values, order), NullsLast(descending))
    ensures forall i :: 0 <= i < |values| ==>
              (Ranked(values, order)[i].Some? <==> i < |values| - multiset(values)[None])
  {
    SortKeepsRows(values, descending, order);
    SortedIsInOrder(Ranked(values, order), NullsLast(descending));
    NullsAtEnd(Ranked(values, order), descending);
  }

  lemma AllNull(values: seq<Cell>, s: seq<Cell>)
    requires multiset(s) == multiset(values) && forall i :: 0 <= i < |s| ==> s[i].None?
    ensures forall u :: u in multiset(values) ==> u.None?
  {
    assert forall u :: u in multiset(s) ==> u in s;
  }

  /** A mode of the values at the front is the mode of the whole column. */
  lemma NullsDoNotCompete(s: seq<Cell>, n: nat, descending: bool, v: Cell)
    requires n <= |s| && (forall i :: 0 <= i < |s| ==> (s[i].Some? <==> i < n))
    requires IsMode(multiset(s[..n]), descending, v)
    ensures IsMode(multiset(s), descending, v)
  {
    assert s == s[..n] + s[n..];
    assert multiset(s) == multiset(s[..n]) + multiset(s[n..]);
    forall u: Cell | u.Some?
      ensures multiset(s)[u] == multiset(s[..n])[u]
    {
      assert u !in s[n..];
      assert u !in multiset(s[n..]);
    }
  }

  /** What one more row does to the longest run, over bags. */
  lemma LongerRun(rows: multiset<Cell>, x: Cell, descending: bool, best: Cell)
    requires x.Some? && IsMode(rows, descending, best)
    requires x != best ==> Ahead(best, x, NullsLast(descending))
    ensures var next := rows + multiset{x};
            var longer := next[x] > rows[best];
            && IsMode(next, descending, if longer then x else best)
            && (!longer ==> next[best] == rows[best])
  {
    var next := rows + multiset{x};
    assert next[x] == rows[x] + 1;
    forall u | u != x
      ensures next[u] == rows[u]
    {
    }
  }

  /** What the next row of the sorted column does to the longest run. */
  lemma LongestRun(s: seq<Cell>, k: nat, descending: bool, best: Cell)
    requires 0 < k < |s| && InOrder(s, NullsLast(descending)) && s[k].Some?
    requires IsMode(multiset(s[..k]), descending, best)
    ensures var longer := multiset(s[..k + 1])[s[k]] > multiset(s[..k])[best];
            && IsMode(multiset(s[..k + 1]), descending, if longer then s[k] else best)
            && (!longer ==> multiset(s[..k + 1])[best] == multiset(s[..k])[best])
  {
    assert s[..k + 1] == s[..k] + [s[k]];
    assert best in s[..k];
    var i :| 0 <= i < k && s[..k][i] == best;
    assert !Ahead(s[k], s[i], NullsLast(descending));
    LongerRun(multiset(s[..k]), s[k], descending, best);
  }

  /** The run the next row of the sorted column belongs to. */
  lemma RunLength(s: seq<Cell>, k: nat, descending: bool)
    requires k < |s| && InOrder(s, NullsLast(descending))
    ensures multiset(s[..k + 1])[s[k]]
            == if k > 0 && s[k] == s[k - 1] then multiset(s[..k])[s[k - 1]] + 1 else 1
  {
    assert s[..k + 1] == s[..k] + [s[k]];
    if k > 0 {
      NewInOrder(s, k, NullsLast(descending));
      assert s[k] in s[..k] <==> s[k] in multiset(s[..k]);
    }
  }

  type Run = Option<(nat, Cell)>

  /** After `rank` rows: `run` is the run the last row is in, `best` the longest so far. */
  ghost predicate Scanned(s: seq<Cell>, rank: nat, descending: bool, best: Run, run: Run)
    requires rank <= |s|
  {
    if rank == 0 then best == None && run == None
    else
      && run == Some((multiset(s[..rank])[s[rank - 1]], s[rank - 1]))
      && best.Some? && IsMode(multiset(s[..rank]), descending, best.value.1)
      && best.value.0 == multiset(s[..rank])[best.value.1]
  }

  lemma ScanRow(s: seq<Cell>, rank: nat, descending: bool, best: Run, run: Run, length: nat)
    requires rank < |s| && InOrder(s, NullsLast(descending)) && s[rank].Some?
    requires Scanned(s, rank, descending, best, run)
    requires length == if run.Some? && run.value.1 == s[rank] then run.value.0 + 1 else 1
    ensures Scanned(s, rank + 1, descending,
                    if best.None? || length > best.value.0 then Some((length, s[rank])) else best,
                    Some((length, s[rank])))
  {
    RunLength(s, rank, descending);
    if rank == 0 {
      assert s[..1] == [s[0]];
    } else {
      LongestRun(s, rank, descending, best.value.1);
    }
  }

  /** Sorted, equal values are adjacent: one pass over the first `rows` ranks for the longest run. */
  method LongestRunOf(values: seq<Cell>, descending: bool, order: seq<nat>, rows: nat, ghost s: seq<Cell>)
    returns (r: Cell)
    requires 0 < rows <= |s| == |order| && InOrder(s, NullsLast(descending))
    requires forall i :: 0 <= i < |order| ==> order[i] < |values| && s[i] == values[order[i]]
    requires forall i :: 0 <= i < rows ==> s[i].Some?
    ensures IsMode(multiset(s[..rows]), descending, r)
  {
    var best: Run := None;
    var run: Run := None;
    for rank := 0 to rows
      invariant Scanned(s, rank, descending, best, run)
    {
      var value := values[order[rank]];
      var length := if run.Some? && run.value.1 == value then run.value.0 + 1 else 1;
      ScanRow(s, rank, descending, best, run, length);
      if best.None? || length > best.value.0 {
        best := Some((length, value));
      }
      run := Some((length, value));
    }
    r := best.value.1;
  }

  /** `mode()` over a column, given the order the sort put its rows in. */
  method ModeOf(values: seq<Cell>, descending: bool, order: seq<nat>) returns (r: Cell)
    requires IsSortOrder(values, descending, order)
    ensures IsModeAnswer(multiset(values), descending, r)
  {
    SortedColumn(values, descending, order);
    ghost var s := Ranked(values, order);
    var rows := |values| - multiset(values)[None];
    if rows == 0 {
      AllNull(values, s);
      return None;
    }
    r := LongestRunOf(values, descending, order, rows, s);
    NullsDoNotCompete(s, rows, descending, r);
  }

  /** Groups that took in the same rows have the same mode, however the rows were spread. */
  lemma ShardingInvisible(g: Gathering, g': Gathering, descending: bool, v: Cell, w: Cell)
    requires BatchesOf(g) == BatchesOf(g')
    requires IsModeAnswer(multiset(Gathered(g)), descending, v)
    requires IsModeAnswer(multiset(Gathered(g')), descending, w)
    ensures v == w
  {
    GatheredRows(g);
    GatheredRows(g');
    ModeUnique(BatchesOf(g), descending, v, w);
  }
}
