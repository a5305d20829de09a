/** Counting and filtering over sequences: the `filter(...).length` and
    `filter(...)` reductions the statistics are built from. */
module Seqs {

  /** Number of elements of `s` that satisfy `p`. */
  function Count<T>(s: seq<T>, p: T -> bool): (n: nat)
    ensures n <= |s|
    ensures n == 0 <==> forall i :: 0 <= i < |s| ==> !p(s[i])
    ensures n == |s| <==> forall i :: 0 <= i < |s| ==> p(s[i])
  {
    if s == [] then 0
    else
      var rest := Count(s[1..], p);
      assert forall i :: 1 <= i < |s| ==> s[i] == s[1..][i - 1];
      (if p(s[0]) then 1 else 0) + rest
  }

  /** The elements of `s` that satisfy `p`, in their original order. */
  function Filter<T(!new)>(s: seq<T>, p: T -> bool): (r: seq<T>)
    ensures |r| == Count(s, p)
    ensures forall x :: x in r <==> x in s && p(x)
  {
    if s == [] then []
    else
      var rest := Filter(s[1..], p);
      assert forall x :: x in s <==> x == s[0] || x in s[1..];
      if p(s[0]) then [s[0]] + rest else rest
  }

  lemma {:induction false} CountAppend<T>(a: seq<T>, b: seq<T>, p: T -> bool)
    ensures Count(a + b, p) == Count(a, p) + Count(b, p)
  {
    if a == [] {
      assert a + b == b;
    } else {
      assert (a + b)[1..] == a[1..] + b;
      CountAppend(a[1..], b, p);
    }
  }

  lemma {:induction false} FilterAppend<T(!new)>(a: seq<T>, b: seq<T>, p: T -> bool)
    ensures Filter(a + b, p) == Filter(a, p) + Filter(b, p)
  {
    if a == [] {
      assert a + b == b;
    } else {
      assert (a + b)[1..] == a[1..] + b;
      FilterAppend(a[1..], b, p);
    }
  }

  /** Counting with a weaker predicate never gives less. */
  lemma {:induction false} CountMonotone<T>(s: seq<T>, p: T -> bool, q: T -> bool)
    requires forall i :: 0 <= i < |s| && p(s[i]) ==> q(s[i])
    ensures Count(s, p) <= Count(s, q)
  {
    if s != [] {
      assert forall i :: 0 <= i < |s[1..]| ==> s[1..][i] == s[i + 1];
      CountMonotone(s[1..], p, q);
    }
  }

  /** Two predicates that agree on every element count the same. */
  lemma {:induction false} CountSame<T>(s: seq<T>, p: T -> bool, q: T -> bool)
    requires forall i :: 0 <= i < |s| ==> (p(s[i]) <==> q(s[i]))
    ensures Count(s, p) == Count(s, q)
  {
    if s != [] {
      assert forall i :: 0 <= i < |s[1..]| ==> s[1..][i] == s[i + 1];
      CountSame(s[1..], p, q);
    }
  }

  /** The set of keys of the elements of `s`. */
  function KeySet<T, K>(s: seq<T>, key: T -> K): (r: set<K>)
    ensures |r| <= |s|
    ensures forall i :: 0 <= i < |s| ==> key(s[i]) in r
    ensures forall k :: k in r ==> exists i :: 0 <= i < |s| && key(s[i]) == k
  {
    if s == [] then {}
    else
      var rest := KeySet(s[1..], key);
      assert forall i :: 1 <= i < |s| ==> s[i] == s[1..][i - 1];
      {key(s[0])} + rest
  }

  /** When the selected elements carry pairwise distinct keys drawn from `keys`,
      there are at most `|keys|` of them. */
  lemma {:induction false} CountDistinctKeys<T, K>(s: seq<T>, p: T -> bool, key: T -> K, keys: set<K>)
    requires forall i, j :: 0 <= i < j < |s| && p(s[i]) && p(s[j]) ==> key(s[i]) != key(s[j])
    requires forall i :: 0 <= i < |s| && p(s[i]) ==> key(s[i]) in keys
    ensures Count(s, p) <= |keys|
  {
    if s != [] {
      var tail := s[1..];
      assert forall i :: 0 <= i < |tail| ==> tail[i] == s[i + 1];
      if p(s[0]) {
        var rest := keys - {key(s[0])};
        forall i | 0 <= i < |tail| && p(tail[i])
          ensures key(tail[i]) in rest
        {
          assert key(s[0]) != key(s[i + 1]);
        }
        CountDistinctKeys(tail, p, key, rest);
      } else {
        CountDistinctKeys(tail, p, key, keys);
      }
    }
  }

  /** `s` is strictly increasing under `rank`. */
  predicate Ordered<T>(s: seq<T>, rank: T -> int) {
    forall i, j :: 0 <= i < j < |s| ==> rank(s[i]) < rank(s[j])
  }

  lemma OrderedCons<T>(x: T, rest: seq<T>, rank: T -> int)
    requires Ordered(rest, rank)
    requires forall y :: y in rest ==> rank(x) < rank(y)
    ensures Ordered([x] + rest, rank)
  {
    var r := [x] + rest;
    forall i, j | 0 <= i < j < |r| ensures rank(r[i]) < rank(r[j]) {
      assert r[j] == rest[j - 1];
      if i > 0 {
        assert r[i] == rest[i - 1];
      }
    }
  }

  /** Filtering keeps the relative order of the kept elements. */
  lemma {:induction false} FilterKeepsOrder<T(!new)>(s: seq<T>, p: T -> bool, rank: T -> int)
    requires Ordered(s, rank)
    ensures Ordered(Filter(s, p), rank)
  {
    if s != [] {
      var tail := s[1..];
      assert forall i :: 0 <= i < |tail| ==> tail[i] == s[i + 1];
      FilterKeepsOrder(tail, p, rank);
      var rest := Filter(tail, p);
      if p(s[0]) {
        forall y | y in rest ensures rank(s[0]) < rank(y) {
          var k :| 0 <= k < |tail| && tail[k] == y;
        }
        OrderedCons(s[0], rest, rank);
        assert Filter(s, p) == [s[0]] + rest;
      } else {
        assert Filter(s, p) == rest;
      }
    }
  }

  /** Indexing past the front of a concatenation lands in the back. */
  lemma AppendAt<T>(a: seq<T>, b: seq<T>, j: nat)
    requires j < |b|
    ensures (a + b)[|a| + j] == b[j]
  {
  }

  /** A common prefix cancels. */
  lemma PrefixCancel<T>(p: seq<T>, a: seq<T>, b: seq<T>)
    requires p + a == p + b
    ensures a == b
  {
    assert a == (p + a)[|p|..];
    assert b == (p + b)[|p|..];
  }

  /** `f` applied to every element, in order. */
  function Map<A, B>(s: seq<A>, f: A -> B): (r: seq<B>)
    ensures |r| == |s|
    decreases |s|
  {
    if s == [] then [] else Map(s[..|s| - 1], f) + [f(s[|s| - 1])]
  }

  lemma {:induction false} MapAt<A, B>(s: seq<A>, f: A -> B, j: nat)
    requires j < |s|
    ensures Map(s, f)[j] == f(s[j])
    decreases |s|
  {
    var n := |s| - 1;
    if j < n {
      MapAt(s[..n], f, j);
      assert s[..n][j] == s[j];
    }
  }
}
