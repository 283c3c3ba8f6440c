/**
 The sums `n`, `sum u` and `sum u^2` of a collection of integers, over a bag and over any
 listing of it, and the Cauchy-Schwarz inequality between them.
 */
module PowerSums {
  import opened Numeric

  /** `u^k` for the three powers the totals keep. */
  function Term(u: int, k: nat): int {
    if k == 0 then 1 else if k == 1 then u else u * u
  }

  function PowerSum(us: seq<int>, k: nat): int {
    if us == [] then 0 else PowerSum(us[..|us| - 1], k) + Term(us[|us| - 1], k)
  }

  /** Some element of a bag that has one. */
  ghost function Pick(bag: multiset<int>): (u: int)
    requires |bag| != 0
    ensures u in bag
  {
    NonEmptyBag(bag);
    var u :| u in bag;
    u
  }

  lemma NonEmptyBag(bag: multiset<int>)
    requires |bag| != 0
    ensures exists u :: u in bag
  {
    if forall u :: u !in bag {
      assert false;
    }
  }

  /** The sum over a bag, taking its elements in some order. */
  ghost function BagSum(bag: multiset<int>, k: nat): int
    decreases |bag|
  {
    if |bag| == 0 then 0 else
    var u := Pick(bag);
    Term(u, k) + BagSum(bag - multiset{u}, k)
  }

  /** The order does not matter: adding one element adds its term. */
  lemma {:induction false} BagSumAdd(bag: multiset<int>, u: int, k: nat)
    ensures BagSum(bag + multiset{u}, k) == BagSum(bag, k) + Term(u, k)
    decreases |bag|
  {
    var more := bag + multiset{u};
    var first := Pick(more);
    if first == u {
      assert more - multiset{u} == bag;
    } else {
      var rest := bag - multiset{first};
      assert more - multiset{first} == rest + multiset{u};
      assert rest + multiset{first} == bag;
      BagSumAdd(rest, u, k);
      BagSumAdd(rest, first, k);
    }
  }

  lemma {:induction false} BagSumRemove(bag: multiset<int>, u: int, k: nat)
    requires u in bag
    ensures BagSum(bag - multiset{u}, k) == BagSum(bag, k) - Term(u, k)
  {
    BagSumAdd(bag - multiset{u}, u, k);
    assert bag - multiset{u} + multiset{u} == bag;
  }

  lemma {:induction false} BagSumUnion(a: multiset<int>, b: multiset<int>, k: nat)
    ensures BagSum(a + b, k) == BagSum(a, k) + BagSum(b, k)
    decreases |b|
  {
    if |b| == 0 {
      assert a + b == a;
    } else {
      var u := Pick(b);
      var rest := b - multiset{u};
      assert rest + multiset{u} == b;
      assert a + b == (a + rest) + multiset{u};
      BagSumUnion(a, rest, k);
      BagSumAdd(a + rest, u, k);
      BagSumAdd(rest, u, k);
    }
  }

  /** Every listing of a bag has the bag's sums. */
  lemma {:induction false} ListingSum(us: seq<int>, k: nat)
    ensures BagSum(multiset(us), k) == PowerSum(us, k)
  {
    if us == [] {
    } else {
      var init, last := us[..|us| - 1], us[|us| - 1];
      assert us == init + [last];
      ListingSum(init, k);
      BagSumAdd(multiset(init), last, k);
    }
  }

  /** `|sum u|` is at most `n` times any bound on the elements. */
  lemma {:induction false} SumBounded(bag: multiset<int>, bound: int)
    requires forall u <- bag :: -bound <= u <= bound
    ensures -(|bag| * bound) <= BagSum(bag, 1) <= |bag| * bound
    decreases |bag|
  {
    if |bag| == 0 {
    } else {
      var u := Pick(bag);
      var rest := bag - multiset{u};
      BagSumRemove(bag, u, 1);
      SumBounded(rest, bound);
      MulOneMore(|rest|, bound);
    }
  }

  lemma MulOneMore(n: int, x: int)
    ensures (n + 1) * x == n * x + x
  {
  }

  lemma {:induction false} BagSquaresNonNegative(bag: multiset<int>)
    ensures 0 <= BagSum(bag, 2)
    decreases |bag|
  {
    if |bag| == 0 {
    } else {
      var u := Pick(bag);
      BagSumRemove(bag, u, 2);
      BagSquaresNonNegative(bag - multiset{u});
    }
  }

  // ----- Cauchy-Schwarz

  /** `n * sum u^2 - (sum u)^2`, the sum of squared deviations times `n`. */
  function Deviations(us: seq<int>): int {
    |us| * PowerSum(us, 2) - PowerSum(us, 1) * PowerSum(us, 1)
  }

  /** `sum (u - v)^2`. */
  function SquaredDistances(us: seq<int>, v: int): int {
    if us == [] then 0 else
    var last := us[|us| - 1];
    SquaredDistances(us[..|us| - 1], v) + (last - v) * (last - v)
  }

  lemma SquaredDistancesAlgebra(n: int, s: int, u: int, v: int)
    ensures (u - v) * (u - v) == u * u - 2 * (v * (s + u)) + 2 * (v * s) + (n + 1) * (v * v) - n * (v * v)
  {
  }

  lemma {:induction false} SquaredDistancesExpand(us: seq<int>, v: int)
    ensures SquaredDistances(us, v) == PowerSum(us, 2) - 2 * (v * PowerSum(us, 1)) + |us| * (v * v)
  {
    if us == [] {
    } else {
      var init, last := us[..|us| - 1], us[|us| - 1];
      SquaredDistancesExpand(init, v);
      SquaredDistancesAlgebra(|init|, PowerSum(init, 1), last, v);
    }
  }

  /** Appending one element adds its squared distance to every earlier one. */
  lemma {:induction false} DeviationsGrow(us: seq<int>, v: int)
    ensures Deviations(us + [v]) == Deviations(us) + SquaredDistances(us, v)
  {
    var more := us + [v];
    assert more[..|more| - 1] == us;
    SquaredDistancesExpand(us, v);
    DeviationsAlgebra(|us|, PowerSum(us, 1), PowerSum(us, 2), v);
  }

  lemma DeviationsAlgebra(n: int, s: int, q: int, v: int)
    ensures (n + 1) * (q + v * v) - (s + v) * (s + v) == (n * q - s * s) + (q - 2 * (v * s) + n * (v * v))
  {
    assert (s + v) * (s + v) == s * s + 2 * (v * s) + v * v;
    assert (n + 1) * (q + v * v) == n * q + q + n * (v * v) + v * v;
  }

  predicate AllEqual(us: seq<int>) {
    forall i, j :: 0 <= i < |us| && 0 <= j < |us| ==> us[i] == us[j]
  }

  lemma SquareZero(x: int)
    ensures 0 <= x * x
    ensures x * x == 0 <==> x == 0
  {
  }

  lemma {:induction false} SquaredDistancesZero(us: seq<int>, v: int)
    ensures 0 <= SquaredDistances(us, v)
    ensures SquaredDistances(us, v) == 0 <==> forall u <- us :: u == v
  {
    if us == [] {
    } else {
      var init, last := us[..|us| - 1], us[|us| - 1];
      assert us == init + [last];
      SquaredDistancesZero(init, v);
      SquareZero(last - v);
      if forall u <- us :: u == v {
        assert forall u <- init :: u in us;
        assert last in us;
      }
    }
  }

  /**
   Cauchy-Schwarz with its equality case: the deviations are never negative, and they vanish
   exactly when every value is the same.
   */
  lemma {:induction false} CauchySchwarz(us: seq<int>)
    ensures 0 <= Deviations(us)
    ensures Deviations(us) == 0 <==> AllEqual(us)
  {
    if us == [] {
    } else {
      var init, last := us[..|us| - 1], us[|us| - 1];
      assert us == init + [last];
      CauchySchwarz(init);
      DeviationsGrow(init, last);
      SquaredDistancesZero(init, last);
      if AllEqual(us) {
        assert forall i :: 0 <= i < |init| ==> init[i] == us[i] && us[i] == us[|us| - 1];
      }
      if forall u <- init :: u == last {
        assert forall i :: 0 <= i < |init| ==> init[i] in init;
      }
    }
  }
}
