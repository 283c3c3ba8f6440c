/**
 The order a `WITHIN GROUP (ORDER BY ...)` clause asks for, and what survives re-arranging a
 column: the number of rows with a property depends on the rows, not on where they stand.
 */
module Ordering {
  import opened Arrangement
  import opened Numeric
  import opened Grouped

  datatype SortOptions = SortOptions(descending: bool, nullsFirst: bool)

  /** `a` sorts strictly ahead of `b`. */
  predicate Ahead(a: Cell, b: Cell, options: SortOptions) {
    match (a, b)
    case (None, None) => false
    case (None, Some(_)) => options.nullsFirst
    case (Some(_), None) => !options.nullsFirst
    case (Some(x), Some(y)) => if options.descending then y < x else x < y
  }

  predicate InOrder(s: seq<Cell>, options: SortOptions) {
    forall i, j :: 0 <= i < j < |s| ==> !Ahead(s[j], s[i], options)
  }

  /** The values never fall (or, descending, never rise), and the nulls are the front or the rest. */
  predicate Sorted(s: seq<Cell>, options: SortOptions) {
    && (forall i, j :: 0 <= i < j < |s| && s[i].Some? && s[j].Some? ==>
          if options.descending then s[j].value <= s[i].value else s[i].value <= s[j].value)
    && (forall i, j :: 0 <= i < j < |s| ==>
          if options.nullsFirst then s[j].None? ==> s[i].None? else s[i].None? ==> s[j].None?)
  }

  /** The comparison puts columns in exactly that order. */
  lemma SortedIsInOrder(s: seq<Cell>, options: SortOptions)
    ensures Sorted(s, options) <==> InOrder(s, options)
  {
    if Sorted(s, options) {
      forall i, j | 0 <= i < j < |s|
        ensures !Ahead(s[j], s[i], options)
      {
      }
    }
    if InOrder(s, options) {
      forall i, j | 0 <= i < j < |s|
        ensures s[i].Some? && s[j].Some? ==>
                  if options.descending then s[j].value <= s[i].value else s[i].value <= s[j].value
        ensures if options.nullsFirst then s[j].None? ==> s[i].None? else s[i].None? ==> s[j].None?
      {
        assert !Ahead(s[j], s[i], options);
      }
    }
  }

  /** One cell is ahead of another exactly when it may not stand behind it. */
  lemma AheadMeans(a: Cell, b: Cell, options: SortOptions)
    ensures Ahead(a, b, options) <==> !Sorted([b, a], options)
  {
    SortedIsInOrder([b, a], options);
    assert [b, a][0] == b && [b, a][1] == a;
  }

  function Count(p: Cell -> bool, s: seq<Cell>): nat {
    if s == [] then 0 else Count(p, s[..|s| - 1]) + if p(s[|s| - 1]) then 1 else 0
  }

  lemma {:induction false} CountJoined(p: Cell -> bool, s: seq<Cell>, t: seq<Cell>)
    ensures Count(p, s + t) == Count(p, s) + Count(p, t)
  {
    if t == [] {
      assert s + t == s;
    } else {
      assert (s + t)[..|s + t| - 1] == s + t[..|t| - 1];
      CountJoined(p, s, t[..|t| - 1]);
    }
  }

  lemma {:induction false} CountWithout(p: Cell -> bool, s: seq<Cell>, k: nat)
    requires k < |s|
    ensures Count(p, s) == Count(p, Without(s, k)) + if p(s[k]) then 1 else 0
  {
    var n, rest := |s| - 1, Without(s, k);
    if k == n {
      assert rest == s[..n];
    } else {
      CountWithout(p, s[..n], k);
      assert rest[..|rest| - 1] == Without(s[..n], k);
      assert rest[|rest| - 1] == s[n];
    }
  }

  /** Two arrangements of the same rows have the same count. */
  lemma {:induction false} CountRearranged(p: Cell -> bool, s: seq<Cell>, t: seq<Cell>)
    requires multiset(s) == multiset(t)
    ensures Count(p, s) == Count(p, t)
    decreases |s|
  {
    SameLength(s, t);
    if s == [] {
    } else {
      SameMembers(s, t);
      assert s[0] in t;
      var k :| 0 <= k < |t| && t[k] == s[0];
      WithoutShared(s, 0, t, k);
      CountWithout(p, s, 0);
      CountWithout(p, t, k);
      CountRearranged(p, Without(s, 0), Without(t, k));
    }
  }

  /** A property that holds up to a place and nowhere past it counts to that place. */
  lemma {:induction false} CountPrefix(p: Cell -> bool, s: seq<Cell>, n: nat)
    requires n <= |s|
    requires forall i :: 0 <= i < |s| ==> (p(s[i]) <==> i < n)
    ensures Count(p, s) == n
  {
    if s == [] {
    } else {
      CountPrefix(p, s[..|s| - 1], if n == |s| then n - 1 else n);
    }
  }

  /** How often a value occurs is a count. */
  lemma {:induction false} CountOccurrences(x: Cell, s: seq<Cell>)
    ensures Count((y: Cell) => y == x, s) == multiset(s)[x]
  {
    if s == [] {
    } else {
      CountOccurrences(x, s[..|s| - 1]);
      assert s == s[..|s| - 1] + [s[|s| - 1]];
    }
  }

  /** In order, a value was met before exactly when it is the one just before. */
  lemma NewInOrder(s: seq<Cell>, k: nat, options: SortOptions)
    requires 0 < k < |s| && InOrder(s, options)
    ensures s[k] in s[..k] <==> s[k] == s[k - 1]
  {
    if s[k] == s[k - 1] {
      assert s[..k][k - 1] == s[k];
    } else {
      assert !Ahead(s[k], s[k - 1], options);
      forall i | 0 <= i < k
        ensures s[..k][i] != s[k]
      {
        assert i < k - 1 ==> !Ahead(s[k - 1], s[i], options);
      }
    }
  }
}
