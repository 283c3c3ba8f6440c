/**
 The hypothetical-set aggregates: where a row that is not in the group would land if it were.
 The code counts; the window functions of the same names, over the group with the row added and
 put in order, are what the counts have to agree with.
 */
module Hypothetical {
  import opened Arrangement
  import opened Numeric
  import opened Grouped
  import opened Ordering

  datatype Counts = Counts(rows: nat, before: nat, distinct: nat, peers: nat)

  datatype Kind = Rank | DenseRank | PercentRank | CumeDist

  datatype Answer = Bigint(count: int) | Double(fraction: real)

  function AnswerOf(kind: Kind, c: Counts): Answer {
    match kind
    case Rank => Bigint(c.before + 1)
    case DenseRank => Bigint(c.distinct + 1)
    case PercentRank => Double(if c.rows == 0 then 0.0 else c.before as real / c.rows as real)
    case CumeDist => Double((c.before + c.peers + 1) as real / (c.rows + 1) as real)
  }

  ghost function AheadOf(h: Cell, options: SortOptions): Cell -> bool {
    x => Ahead(x, h, options)
  }

  ghost function DistinctAhead(values: seq<Cell>, h: Cell, options: SortOptions): set<Cell> {
    set x | x in values && Ahead(x, h, options)
  }

  ghost function CountsOf(values: seq<Cell>, h: Cell, options: SortOptions): Counts {
    Counts(|values|, Count(AheadOf(h, options), values), |DistinctAhead(values, h, options)|, multiset(values)[h])
  }

  /** The rows ahead of the hypothetical one are those that may not stand behind it. */
  lemma {:induction false} MayNotFollow(values: seq<Cell>, h: Cell, options: SortOptions)
    ensures Count(AheadOf(h, options), values) == Count(x => !Sorted([h, x], options), values)
  {
    if values == [] {
    } else {
      MayNotFollow(values[..|values| - 1], h, options);
      AheadMeans(values[|values| - 1], h, options);
    }
  }

  /** What the next row adds to each count. */
  lemma CountsStep(s: seq<Cell>, i: nat, h: Cell, options: SortOptions)
    requires i < |s|
    ensures Count(AheadOf(h, options), s[..i + 1])
            == Count(AheadOf(h, options), s[..i]) + if Ahead(s[i], h, options) then 1 else 0
    ensures multiset(s[..i + 1])[h] == multiset(s[..i])[h] + if s[i] == h then 1 else 0
    ensures DistinctAhead(s[..i + 1], h, options)
            == DistinctAhead(s[..i], h, options) + if Ahead(s[i], h, options) then {s[i]} else {}
  {
    assert s[..i + 1][..i] == s[..i];
    assert s[..i + 1] == s[..i] + [s[i]];
  }

  /** One pass over the column, comparing each row with the hypothetical one. */
  method CountsAgainst(values: seq<Cell>, h: Cell, options: SortOptions) returns (counts: Counts)
    ensures counts == CountsOf(values, h, options)
    ensures counts.before == Count(x => !Sorted([h, x], options), values)
  {
    MayNotFollow(values, h, options);
    var before, peers := 0, 0;
    var ahead: set<Cell> := {};
    for i := 0 to |values|
      invariant before == Count(AheadOf(h, options), values[..i])
      invariant peers == multiset(values[..i])[h]
      invariant ahead == DistinctAhead(values[..i], h, options)
    {
      CountsStep(values, i, h, options);
      if Ahead(values[i], h, options) {
        before := before + 1;
        ahead := ahead + {values[i]};
      } else if values[i] == h {
        peers := peers + 1;
      }
    }
    assert values[..|values|] == values;
    counts := Counts(|values|, before, |ahead|, peers);
  }

  /** The counts depend on the rows of the group and not on how they are arranged. */
  lemma CountsRearranged(values: seq<Cell>, values': seq<Cell>, h: Cell, options: SortOptions)
    requires multiset(values) == multiset(values')
    ensures CountsOf(values, h, options) == CountsOf(values', h, options)
  {
    SameLength(values, values');
    CountRearranged(AheadOf(h, options), values, values');
    SameMembers(values, values');
    assert DistinctAhead(values, h, options) == DistinctAhead(values', h, options);
  }

  /** Two groups that took in the same rows answer alike, whatever their batches and shards. */
  lemma ShardingInvisible(g: Gathering, g': Gathering, h: Cell, options: SortOptions, kind: Kind)
    requires BatchesOf(g) == BatchesOf(g')
    ensures AnswerOf(kind, CountsOf(Gathered(g), h, options)) == AnswerOf(kind, CountsOf(Gathered(g'), h, options))
  {
    GatheredRows(g);
    GatheredRows(g');
    CountsRearranged(Gathered(g), Gathered(g'), h, options);
  }

  // ----- the window functions

  /** The group with the hypothetical row added, in the order the clause asks for. */
  ghost predicate IsWindow(window: seq<Cell>, values: seq<Cell>, h: Cell, options: SortOptions) {
    Sorted(window, options) && multiset(window) == multiset(values) + multiset{h}
  }

  ghost function AheadBy(options: SortOptions): (Cell, Cell) -> bool {
    (a, b) => Ahead(a, b, options)
  }

  lemma AheadIsWeakOrder(options: SortOptions)
    ensures WeakOrder(AheadBy(options))
  {
  }

  lemma OneMoreRow(s: seq<Cell>, x: Cell, options: SortOptions)
    requires InOrderBy(AheadBy(options), s)
    ensures InOrderBy(AheadBy(options), Inserted(AheadBy(options), s, x))
    ensures multiset(Inserted(AheadBy(options), s, x)) == multiset(s) + multiset{x}
  {
    AheadIsWeakOrder(options);
    InsertedElements(AheadBy(options), s, x);
    InsertedInOrder(AheadBy(options), s, x);
  }

  ghost function Arranged(s: seq<Cell>, options: SortOptions): seq<Cell> {
    if s == [] then [] else Inserted(AheadBy(options), Arranged(s[..|s| - 1], options), s[|s| - 1])
  }

  lemma {:induction false} ArrangedInOrder(s: seq<Cell>, options: SortOptions)
    ensures InOrderBy(AheadBy(options), Arranged(s, options)) && multiset(Arranged(s, options)) == multiset(s)
  {
    if s == [] {
    } else {
      var before := Arranged(s[..|s| - 1], options);
      ArrangedInOrder(s[..|s| - 1], options);
      OneMoreRow(before, s[|s| - 1], options);
      assert s == s[..|s| - 1] + [s[|s| - 1]];
    }
  }

  /** Every group and hypothetical row have such a window, and the row stands somewhere in it. */
  lemma WindowExists(values: seq<Cell>, h: Cell, options: SortOptions) returns (window: seq<Cell>, k: nat)
    ensures IsWindow(window, values, h, options) && k < |window| && window[k] == h
  {
    window := Arranged(values + [h], options);
    ArrangedInOrder(values + [h], options);
    forall i, j | 0 <= i < j < |window|
      ensures !Ahead(window[j], window[i], options)
    {
      assert !AheadBy(options)(window[j], window[i]);
    }
    SortedIsInOrder(window, options);
    assert multiset(values + [h])[h] > 0;
    assert h in multiset(window);
    k :| 0 <= k < |window| && window[k] == h;
  }

  function FirstPeer(window: seq<Cell>, k: nat): (f: nat)
    requires k < |window|
    ensures f <= k && window[f] == window[k]
  {
    if k > 0 && window[k - 1] == window[k] then FirstPeer(window, k - 1) else k
  }

  function LastPeer(window: seq<Cell>, k: nat): (l: nat)
    requires k < |window|
    ensures k <= l < |window| && window[l] == window[k]
    decreases |window| - k
  {
    if k + 1 < |window| && window[k + 1] == window[k] then LastPeer(window, k + 1) else k
  }

  /** How many peer groups there are up to and including row `k`. */
  function PeerGroups(window: seq<Cell>, k: nat): nat
    requires k < |window|
  {
    if k == 0 then 1 else PeerGroups(window, k - 1) + if window[k] == window[k - 1] then 0 else 1
  }

  function WindowAnswer(kind: Kind, window: seq<Cell>, k: nat): Answer
    requires k < |window|
  {
    match kind
    case Rank => Bigint(FirstPeer(window, k) + 1)
    case DenseRank => Bigint(PeerGroups(window, k))
    case PercentRank =>
      Double(if |window| == 1 then 0.0 else FirstPeer(window, k) as real / (|window| - 1) as real)
    case CumeDist => Double((LastPeer(window, k) + 1) as real / |window| as real)
  }

  /** In order, the rows ahead of row `k` are exactly those before its first peer. */
  lemma {:induction false} FirstPeerSplits(window: seq<Cell>, k: nat, options: SortOptions)
    requires k < |window| && InOrder(window, options)
    ensures forall i :: 0 <= i < |window| ==> (Ahead(window[i], window[k], options) <==> i < FirstPeer(window, k))
  {
    if k > 0 && window[k - 1] == window[k] {
      FirstPeerSplits(window, k - 1, options);
    } else {
      forall i | 0 <= i < |window|
        ensures Ahead(window[i], window[k], options) <==> i < k
      {
        if i < k {
          assert !Ahead(window[k], window[k - 1], options);
          assert i < k - 1 ==> !Ahead(window[k - 1], window[i], options);
        } else if k < i {
          assert !Ahead(window[i], window[k], options);
        }
      }
    }
  }

  /** In order, the rows not behind row `k` are exactly those up to its last peer. */
  lemma {:induction false} LastPeerSplits(window: seq<Cell>, k: nat, options: SortOptions)
    requires k < |window| && InOrder(window, options)
    ensures forall i :: 0 <= i < |window| ==> (!Ahead(window[k], window[i], options) <==> i <= LastPeer(window, k))
    decreases |window| - k
  {
    if k + 1 < |window| && window[k + 1] == window[k] {
      LastPeerSplits(window, k + 1, options);
    } else {
      forall i | 0 <= i < |window|
        ensures !Ahead(window[k], window[i], options) <==> i <= k
      {
        if k < i {
          assert !Ahead(window[k + 1], window[k], options);
          assert k + 1 < i ==> !Ahead(window[i], window[k + 1], options);
        } else if i < k {
          assert !Ahead(window[k], window[i], options);
        }
      }
    }
  }

  ghost function Members(s: seq<Cell>): set<Cell> {
    set x | x in s
  }

  lemma MembersStep(s: seq<Cell>, x: Cell)
    ensures Members(s + [x]) == Members(s) + {x}
    ensures x in s ==> |Members(s + [x])| == |Members(s)|
    ensures x !in s ==> |Members(s + [x])| == |Members(s)| + 1
  {
    assert Members(s + [x]) == Members(s) + {x};
    if x in s {
      assert Members(s) + {x} == Members(s);
    }
  }

  /** In order, there are as many peer groups as distinct values. */
  lemma {:induction false} PeerGroupsAreDistinct(window: seq<Cell>, k: nat, options: SortOptions)
    requires k < |window| && InOrder(window, options)
    ensures PeerGroups(window, k) == |Members(window[..k + 1])|
  {
    assert window[..k + 1] == window[..k] + [window[k]];
    MembersStep(window[..k], window[k]);
    if k == 0 {
    } else {
      PeerGroupsAreDistinct(window, k - 1, options);
      NewInOrder(window, k, options);
    }
  }

  lemma {:induction false} PeersShareGroup(window: seq<Cell>, k: nat)
    requires k < |window|
    ensures PeerGroups(window, k) == PeerGroups(window, FirstPeer(window, k))
  {
    if k > 0 && window[k - 1] == window[k] {
      PeersShareGroup(window, k - 1);
    }
  }

  /** Rows ahead, peers, and rows not behind. */
  lemma {:induction false} CountNotBehind(s: seq<Cell>, h: Cell, options: SortOptions)
    ensures Count(x => !Ahead(h, x, options), s) == Count(AheadOf(h, options), s) + Count((y: Cell) => y == h, s)
  {
    if s == [] {
    } else {
      CountNotBehind(s[..|s| - 1], h, options);
    }
  }

  /** The places of the hypothetical row's peers in the window, from the counts over the group. */
  lemma WindowPlaces(window: seq<Cell>, values: seq<Cell>, k: nat, h: Cell, options: SortOptions)
    requires IsWindow(window, values, h, options) && k < |window| && window[k] == h
    ensures |window| == |values| + 1
    ensures FirstPeer(window, k) == Count(AheadOf(h, options), values)
    ensures LastPeer(window, k) == Count(AheadOf(h, options), values) + multiset(values)[h]
  {
    SortedIsInOrder(window, options);
    var all := values + [h];
    assert [h][..0] == [];
    SameLength(window, all);
    CountRearranged(AheadOf(h, options), window, all);
    CountJoined(AheadOf(h, options), values, [h]);
    FirstPeerSplits(window, k, options);
    CountPrefix(AheadOf(h, options), window, FirstPeer(window, k));
    LastPeerSplits(window, k, options);
    CountPrefix(x => !Ahead(h, x, options), window, LastPeer(window, k) + 1);
    CountNotBehind(window, h, options);
    CountOccurrences(h, window);
  }

  /** The values ahead of the hypothetical row fill the window up to its first peer. */
  lemma AheadInWindow(window: seq<Cell>, values: seq<Cell>, k: nat, h: Cell, options: SortOptions)
    requires InOrder(window, options) && multiset(window) == multiset(values) + multiset{h} && k < |window| && window[k] == h
    ensures Members(window[..FirstPeer(window, k)]) == DistinctAhead(values, h, options)
  {
    var f := FirstPeer(window, k);
    FirstPeerSplits(window, k, options);
    SameMembers(window, values + [h]);
    forall x
      ensures x in window[..f] <==> x in values && Ahead(x, h, options)
    {
      if x in values && Ahead(x, h, options) {
        assert x in values + [h];
        var i :| 0 <= i < |window| && window[i] == x;
        assert window[..f][i] == x;
      }
      if x in window[..f] {
        var i :| 0 <= i < f && window[..f][i] == x;
        assert x == window[i] && x in window;
        assert x in values + [h];
      }
    }
  }

  lemma OneMoreMember(window: seq<Cell>, f: nat, ahead: set<Cell>)
    requires f < |window| && Members(window[..f]) == ahead && window[f] !in ahead
    ensures |Members(window[..f + 1])| == |ahead| + 1
  {
    assert window[..f + 1] == window[..f] + [window[f]];
    MembersStep(window[..f], window[f]);
  }

  /** The peer groups up to the hypothetical row, from the distinct values ahead of it. */
  lemma WindowGroups(window: seq<Cell>, values: seq<Cell>, k: nat, h: Cell, options: SortOptions)
    requires IsWindow(window, values, h, options) && k < |window| && window[k] == h
    ensures PeerGroups(window, k) == |DistinctAhead(values, h, options)| + 1
  {
    SortedIsInOrder(window, options);
    var f, ahead := FirstPeer(window, k), DistinctAhead(values, h, options);
    assert PeerGroups(window, k) == PeerGroups(window, f) by {
      PeersShareGroup(window, k);
    }
    assert PeerGroups(window, f) == |Members(window[..f + 1])| by {
      PeerGroupsAreDistinct(window, f, options);
    }
    assert |Members(window[..f + 1])| == |ahead| + 1 by {
      AheadInWindow(window, values, k, h, options);
      OneMoreMember(window, f, ahead);
    }
  }

  /** All four answers are the window functions of the same names over the group plus the row. */
  lemma AnswerIsWindowFunction(kind: Kind, window: seq<Cell>, values: seq<Cell>, k: nat, h: Cell, options: SortOptions)
    requires IsWindow(window, values, h, options) && k < |window| && window[k] == h
    ensures AnswerOf(kind, CountsOf(values, h, options)) == WindowAnswer(kind, window, k)
  {
    WindowPlaces(window, values, k, h, options);
    WindowGroups(window, values, k, h, options);
  }
}
