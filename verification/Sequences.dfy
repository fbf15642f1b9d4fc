/** Sequences as lists of elements: mapping, removing, distinct elements, counting. */
module Sequences {

  /** The elements of a sequence. */
  function Elements<T(==)>(a: seq<T>): set<T> {
    set m | m in a
  }

  /** f applied to every element. */
  function Map<T, U>(f: T -> U, a: seq<T>): (b: seq<U>)
    ensures |b| == |a|
    ensures forall i | 0 <= i < |a| :: b[i] == f(a[i])
  {
    seq(|a|, i requires 0 <= i < |a| => f(a[i]))
  }

  lemma {:induction false} MapMultiset<T, U>(f: T -> U, a: seq<T>, b: seq<T>)
    requires multiset(a) == multiset(b)
    ensures multiset(Map(f, a)) == multiset(Map(f, b))
    decreases |a|
  {
    assert |a| == |multiset(a)| && |b| == |multiset(b)|;
    if a != [] {
      assert a[0] in multiset(b);
      var j :| 0 <= j < |b| && b[j] == a[0];
      RemoveEqual(a, b, 0, j);
      MapMultiset(f, Without(a, 0), Without(b, j));
      MapWithout(f, a, 0);
      MapWithout(f, b, j);
      WithoutMultiset(Map(f, a), 0);
      WithoutMultiset(Map(f, b), j);
    }
  }

  lemma MapWithout<T, U>(f: T -> U, a: seq<T>, i: nat)
    requires i < |a|
    ensures Map(f, Without(a, i)) == Without(Map(f, a), i)
  {
  }

  lemma RemoveEqual<T>(a: seq<T>, b: seq<T>, i: nat, j: nat)
    requires multiset(a) == multiset(b) && i < |a| && j < |b| && a[i] == b[j]
    ensures multiset(Without(a, i)) == multiset(Without(b, j))
  {
    WithoutMultiset(a, i);
    WithoutMultiset(b, j);
    assert multiset(Without(a, i)) == multiset(a) - multiset{a[i]};
    assert multiset(Without(b, j)) == multiset(b) - multiset{b[j]};
  }

  /** The sequence without its element at i. */
  function Without<T>(a: seq<T>, i: nat): (b: seq<T>)
    requires i < |a|
    ensures |b| == |a| - 1
  {
    a[..i] + a[i + 1..]
  }

  lemma WithoutMultiset<T>(a: seq<T>, i: nat)
    requires i < |a|
    ensures multiset(a) == multiset(Without(a, i)) + multiset{a[i]}
  {
    assert a == a[..i] + [a[i]] + a[i + 1..];
  }

  lemma {:induction false} MapSubset<T, U>(f: T -> U, a: seq<T>, b: seq<T>)
    requires multiset(b) <= multiset(a)
    ensures multiset(Map(f, b)) <= multiset(Map(f, a))
    decreases |b|
  {
    if b != [] {
      assert b[0] in multiset(b);
      assert b[0] in multiset(a);
      var j :| 0 <= j < |a| && a[j] == b[0];
      SubsetRemove(a, b, j);
      MapSubset(f, Without(a, j), Without(b, 0));
      MapWithout(f, b, 0);
      MapWithout(f, a, j);
      WithoutMultiset(Map(f, b), 0);
      WithoutMultiset(Map(f, a), j);
    }
  }

  lemma SubsetRemove<T>(a: seq<T>, b: seq<T>, j: nat)
    requires multiset(b) <= multiset(a) && b != [] && j < |a| && a[j] == b[0]
    ensures multiset(Without(b, 0)) <= multiset(Without(a, j))
  {
    WithoutMultiset(a, j);
    WithoutMultiset(b, 0);
    assert multiset(Without(a, j)) == multiset(a) - multiset{a[j]};
    assert multiset(Without(b, 0)) == multiset(b) - multiset{b[0]};
  }

  lemma MultisetSize<T>(a: multiset<T>, b: multiset<T>)
    requires a <= b
    ensures |a| <= |b|
  {
    assert b == a + (b - a);
  }

  /** No element occurs twice. */
  predicate Distinct<T(==)>(a: seq<T>) {
    forall i, j | 0 <= i < j < |a| :: a[i] != a[j]
  }

  lemma DistinctMultiset<T>(a: seq<T>, b: seq<T>)
    requires Distinct(a) && multiset(a) == multiset(b)
    ensures Distinct(b)
  {
    DistinctSubset(a, b);
  }

  lemma CountTwice<T>(b: seq<T>, i: nat, j: nat)
    requires i < j < |b| && b[i] == b[j]
    ensures multiset(b)[b[i]] >= 2
  {
    var c := Without(b, j);
    WithoutMultiset(b, j);
    assert c[i] == b[i];
    assert b[i] in multiset(c);
  }

  lemma {:induction false} DistinctCount<T>(a: seq<T>, x: T)
    requires Distinct(a)
    ensures multiset(a)[x] <= 1
  {
    if a != [] {
      assert a == [a[0]] + a[1..];
      DistinctCount(a[1..], x);
      if a[0] == x {
        assert x !in a[1..];
        assert x !in multiset(a[1..]);
      }
    }
  }

  lemma DistinctSubset<T>(a: seq<T>, b: seq<T>)
    requires Distinct(a) && multiset(b) <= multiset(a)
    ensures Distinct(b)
  {
    forall i, j | 0 <= i < j < |b| ensures b[i] != b[j] {
      if b[i] == b[j] {
        CountTwice(b, i, j);
        DistinctCount(a, b[i]);
      }
    }
  }

  lemma Repeated<T>(h: seq<T>, n: nat)
    requires n < |h| && h[n] in h[..n]
    ensures !Distinct(h)
  {
    var i :| 0 <= i < n && h[..n][i] == h[n];
    assert h[i] == h[n];
  }

  lemma Fresh(h: seq<int>, n: nat)
    requires n < |h| && h[n] !in h[..n] && Distinct(h[..n])
    ensures Distinct(h[..n + 1])
    ensures Elements(h[..n + 1]) == Elements(h[..n]) + {h[n]}
  {
    assert h[..n + 1] == h[..n] + [h[n]];
  }

  lemma SameEntries<T>(a: seq<T>, b: seq<T>)
    requires multiset(a) == multiset(b)
    ensures forall i | 0 <= i < |a| :: exists j :: 0 <= j < |b| && b[j] == a[i]
  {
    forall i | 0 <= i < |a| ensures exists j :: 0 <= j < |b| && b[j] == a[i] {
      assert a[i] in multiset(a);
      assert a[i] in multiset(b);
    }
  }

  lemma NonemptyHasElement<T>(a: seq<T>)
    ensures a != [] ==> exists x :: x in a
  {
    if a != [] { assert a[0] in a; }
  }

  predicate Increasing(cs: seq<nat>) {
    forall i, j | 0 <= i < j < |cs| :: cs[i] < cs[j]
  }

  lemma {:induction false} IncreasingBounded(cs: seq<nat>, k: nat)
    requires Increasing(cs) && forall i | 0 <= i < |cs| :: cs[i] < k
    ensures |cs| <= k
  {
    if cs != [] {
      var n := |cs| - 1;
      IncreasingBounded(cs[..n], cs[n]);
    }
  }

  /** More than k numbers below k repeat one. */
  lemma {:induction false} Pigeonhole(c: seq<nat>, k: nat)
    requires |c| > k && forall i | 0 <= i < |c| :: c[i] < k
    ensures exists i, j :: 0 <= i < j < |c| && c[i] == c[j]
    decreases k
  {
    assert c[0] < k;
    if i, j :| 0 <= i < j < |c| && c[i] == k - 1 && c[j] == k - 1 {
      assert c[i] == c[j];
    } else {
      // At most one occurrence of k - 1: without it, the rest stays below k - 1.
      var m := 0;
      if i :| 0 <= i < |c| && c[i] == k - 1 { m := i; }
      assert forall i | 0 <= i < |c| && i != m :: c[i] != k - 1;
      var rest := c[..m] + c[m + 1..];
      Pigeonhole(rest, k - 1);
      var i, j :| 0 <= i < j < |rest| && rest[i] == rest[j];
      var i', j' := if i < m then i else i + 1, if j < m then j else j + 1;
      assert c[i'] == rest[i] && c[j'] == rest[j];
    }
  }
}
