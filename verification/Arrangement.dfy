/** Sequences that hold the same elements in different places. */
module Arrangement {

  ghost predicate Distinct<T>(s: seq<T>) {
    forall i, j :: 0 <= i < j < |s| ==> s[i] != s[j]
  }

  lemma SameLength<T>(s: seq<T>, t: seq<T>)
    requires multiset(s) == multiset(t)
    ensures |s| == |t|
  {
    assert |multiset(s)| == |s| && |multiset(t)| == |t|;
  }

  lemma SameMembers<T>(s: seq<T>, t: seq<T>)
    requires multiset(s) == multiset(t)
    ensures forall x :: x in s <==> x in t
  {
    forall x
      ensures x in s <==> x in t
    {
      assert x in s <==> x in multiset(s);
      assert x in t <==> x in multiset(t);
    }
  }

  lemma SameWithout<T>(a: multiset<T>, b: multiset<T>, x: T)
    requires a + multiset{x} == b + multiset{x}
    ensures a == b
  {
    assert a == (a + multiset{x}) - multiset{x};
    assert b == (b + multiset{x}) - multiset{x};
  }

  function Without<T>(s: seq<T>, k: nat): seq<T>
    requires k < |s|
  {
    s[..k] + s[k + 1..]
  }

  lemma WithoutOne<T>(s: seq<T>, k: nat)
    requires k < |s|
    ensures multiset(s) == multiset(Without(s, k)) + multiset{s[k]}
  {
    assert s == s[..k] + [s[k]] + s[k + 1..];
  }

  /** Two arrangements of one bag, with the same element taken out of each. */
  lemma WithoutShared<T>(s: seq<T>, j: nat, t: seq<T>, k: nat)
    requires multiset(s) == multiset(t) && j < |s| && k < |t| && s[j] == t[k]
    ensures multiset(Without(s, j)) == multiset(Without(t, k))
  {
    WithoutOne(s, j);
    WithoutOne(t, k);
    SameWithout(multiset(Without(s, j)), multiset(Without(t, k)), s[j]);
  }

  function Mapped<A, B>(f: A -> B, s: seq<A>): seq<B> {
    seq(|s|, i requires 0 <= i < |s| => f(s[i]))
  }

  lemma MappedWithout<A, B>(f: A -> B, s: seq<A>, k: nat)
    requires k < |s|
    ensures multiset(Mapped(f, s)) == multiset(Mapped(f, Without(s, k))) + multiset{f(s[k])}
  {
    WithoutOne(Mapped(f, s), k);
    assert Without(Mapped(f, s), k) == Mapped(f, Without(s, k));
  }

  /** Re-arranging before mapping re-arranges what is mapped. */
  lemma {:induction false} MappedRearranged<A, B>(f: A -> B, s: seq<A>, t: seq<A>)
    requires multiset(s) == multiset(t)
    ensures multiset(Mapped(f, s)) == multiset(Mapped(f, t))
    decreases |s|
  {
    SameLength(s, t);
    if s == [] {
    } else {
      SameMembers(s, t);
      assert s[0] in t;
      var k :| 0 <= k < |t| && t[k] == s[0];
      WithoutShared(s, 0, t, k);
      MappedWithout(f, s, 0);
      MappedWithout(f, t, k);
      MappedRearranged(f, Without(s, 0), Without(t, k));
    }
  }

  /** Without repeats, the members are all there is to a sequence but its arrangement. */
  lemma DistinctRearranged<T>(s: seq<T>, t: seq<T>)
    requires Distinct(s) && Distinct(t) && forall x :: x in s <==> x in t
    ensures multiset(s) == multiset(t)
  {
    forall x
      ensures multiset(s)[x] == multiset(t)[x]
    {
      DistinctOnce(s, x);
      DistinctOnce(t, x);
    }
  }

  lemma {:induction false} DistinctOnce<T>(s: seq<T>, x: T)
    requires Distinct(s)
    ensures multiset(s)[x] == if x in s then 1 else 0
  {
    if s == [] {
    } else {
      var n := |s| - 1;
      assert s == s[..n] + [s[n]];
      DistinctOnce(s[..n], x);
    }
  }

  // ----- putting in order

  /** A strict order in which elements may tie. */
  ghost predicate WeakOrder<T(!new)>(ahead: (T, T) -> bool) {
    && (forall a, b :: ahead(a, b) ==> !ahead(b, a))
    && (forall a, b, c :: !ahead(b, a) && !ahead(c, b) ==> !ahead(c, a))
  }

  ghost predicate InOrderBy<T>(ahead: (T, T) -> bool, s: seq<T>) {
    forall i, j :: 0 <= i < j < |s| ==> !ahead(s[j], s[i])
  }

  /** Put `x` behind every element it is not ahead of, as a stable sort does. */
  function Inserted<T>(ahead: (T, T) -> bool, s: seq<T>, x: T): seq<T> {
    if s == [] || !ahead(x, s[|s| - 1]) then s + [x]
    else Inserted(ahead, s[..|s| - 1], x) + [s[|s| - 1]]
  }

  lemma {:induction false} InsertedElements<T>(ahead: (T, T) -> bool, s: seq<T>, x: T)
    ensures multiset(Inserted(ahead, s, x)) == multiset(s) + multiset{x}
  {
    if s == [] || !ahead(x, s[|s| - 1]) {
    } else {
      InsertedElements(ahead, s[..|s| - 1], x);
      assert s == s[..|s| - 1] + [s[|s| - 1]];
    }
  }

  lemma {:induction false} InsertedInOrder<T(!new)>(ahead: (T, T) -> bool, s: seq<T>, x: T)
    requires WeakOrder(ahead) && InOrderBy(ahead, s)
    ensures InOrderBy(ahead, Inserted(ahead, s, x))
  {
    if s == [] {
    } else {
      var front, last := s[..|s| - 1], s[|s| - 1];
      if ahead(x, last) {
        InsertedInOrder(ahead, front, x);
        InsertedElements(ahead, front, x);
        var rest := Inserted(ahead, front, x);
        forall i | 0 <= i < |rest|
          ensures !ahead(last, rest[i])
        {
          assert rest[i] in multiset(rest);
          assert rest[i] == x || rest[i] in front;
        }
      } else {
        forall i | 0 <= i < |s|
          ensures !ahead(x, s[i])
        {
          assert i < |s| - 1 ==> !ahead(last, s[i]);
        }
      }
    }
  }
}
