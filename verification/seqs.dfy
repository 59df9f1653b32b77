/**
 * Sequence vocabulary shared by every model: `range(n)`, `map`, flattening a
 * list of lists, permutations of the indices of a sequence, and the counting
 * facts about finite sets of indices that the proofs use.
 */
module Seqs {

  /** Python's `range(n)`. */
  function Range(n: nat): (r: seq<nat>)
    ensures |r| == n && forall k :: 0 <= k < n ==> r[k] == k
  {
    seq(n, k => k)
  }

  /** Python's `list(map(f, xs))`. */
  function MapSeq<A, B>(xs: seq<A>, f: A -> B): (r: seq<B>)
    ensures |r| == |xs| && forall k :: 0 <= k < |xs| ==> r[k] == f(xs[k])
  {
    seq(|xs|, k requires 0 <= k < |xs| => f(xs[k]))
  }

  /** Python's `sum(lists, [])`: the lists one after the other. */
  function Flatten<T>(xss: seq<seq<T>>): seq<T>
  {
    if xss == [] then [] else Flatten(xss[..|xss| - 1]) + xss[|xss| - 1]
  }

  lemma {:induction false} FlattenCons<T>(xs: seq<T>, xss: seq<seq<T>>)
    ensures Flatten([xs] + xss) == xs + Flatten(xss)
    decreases |xss|
  {
    if xss != [] {
      var init := xss[..|xss| - 1];
      assert ([xs] + xss)[..|xss|] == [xs] + init;
      FlattenCons(xs, init);
    } else {
      assert [xs] + xss == [xs];
      assert [xs][..0] == [];
    }
  }

  /** Python's `xs[::-1]`. */
  function Reverse<T>(xs: seq<T>): (r: seq<T>)
    ensures |r| == |xs| && forall k :: 0 <= k < |xs| ==> r[k] == xs[|xs| - 1 - k]
  {
    seq(|xs|, k requires 0 <= k < |xs| => xs[|xs| - 1 - k])
  }

  /** Reversing keeps every element, with its multiplicity. */
  lemma {:induction false} ReverseMultiset<T>(xs: seq<T>)
    ensures multiset(Reverse(xs)) == multiset(xs)
  {
    if xs != [] {
      var init := xs[..|xs| - 1];
      ReverseMultiset(init);
      assert Reverse(xs) == [xs[|xs| - 1]] + Reverse(init);
      assert xs == init + [xs[|xs| - 1]];
    }
  }

  lemma {:induction false} FlattenReverse<T>(xss: seq<seq<T>>)
    ensures multiset(Flatten(Reverse(xss))) == multiset(Flatten(xss))
  {
    if xss != [] {
      var init := xss[..|xss| - 1];
      var last := xss[|xss| - 1];
      assert Reverse(xss) == [last] + Reverse(init);
      FlattenCons(last, Reverse(init));
      FlattenReverse(init);
    }
  }

  /** `[s[i] for i in q]`: the elements of `s` at the positions listed in `q`. */
  function Gather<T>(s: seq<T>, q: seq<nat>): (r: seq<T>)
    requires forall k :: 0 <= k < |q| ==> q[k] < |s|
    ensures |r| == |q| && forall k :: 0 <= k < |q| ==> r[k] == s[q[k]]
  {
    seq(|q|, k requires 0 <= k < |q| => s[q[k]])
  }

  /** Reading `s` along a permutation of its positions rearranges it. */
  lemma GatherPermutation<T>(s: seq<T>, q: seq<nat>)
    requires IsPermutation(q, |s|)
    ensures forall k :: 0 <= k < |q| ==> q[k] < |s|
    ensures multiset(Gather(s, q)) == multiset(s)
  {
    PermutationFacts(q, |s|);
    if |s| > 0 {
      var f := (i: nat) => if i < |s| then s[i] else s[0];
      MapSeqMultiset(q, Range(|s|), f);
      assert MapSeq(q, f) == Gather(s, q);
      assert MapSeq(Range(|s|), f) == s;
    }
  }

  function Elems<T>(xs: seq<T>): set<T>
  {
    set x | x in xs
  }

  predicate Distinct<T(==)>(xs: seq<T>)
  {
    forall a, b :: 0 <= a < b < |xs| ==> xs[a] != xs[b]
  }

  /** `q` lists every index of a length-`n` sequence exactly once. */
  predicate IsPermutation(q: seq<nat>, n: nat)
  {
    multiset(q) == multiset(Range(n))
  }

  lemma MapSeqAppend<A, B>(xs: seq<A>, ys: seq<A>, f: A -> B)
    ensures MapSeq(xs + ys, f) == MapSeq(xs, f) + MapSeq(ys, f)
  {
  }

  /** Rearranging the inputs of `map` rearranges its outputs the same way. */
  lemma {:induction false} MapSeqMultiset<A, B>(xs: seq<A>, ys: seq<A>, f: A -> B)
    requires multiset(xs) == multiset(ys)
    ensures multiset(MapSeq(xs, f)) == multiset(MapSeq(ys, f))
    decreases |xs|
  {
    if xs != [] {
      var x := xs[|xs| - 1];
      var xs' := xs[..|xs| - 1];
      assert xs == xs' + [x];
      assert x in multiset(ys);
      var b :| 0 <= b < |ys| && ys[b] == x;
      var ys' := ys[..b] + ys[b + 1..];
      assert ys == ys[..b] + [x] + ys[b + 1..];
      assert multiset(ys) == multiset(ys[..b]) + multiset{x} + multiset(ys[b + 1..]);
      assert multiset(xs) == multiset(xs') + multiset{x};
      assert multiset(ys') == multiset(ys[..b]) + multiset(ys[b + 1..]);
      assert multiset(xs') == multiset(xs) - multiset{x};
      assert multiset(ys') == multiset(ys) - multiset{x};
      MapSeqMultiset(xs', ys', f);
      MapSeqAppend(xs', [x], f);
      MapSeqAppend(ys[..b] + [x], ys[b + 1..], f);
      MapSeqAppend(ys[..b], [x], f);
      MapSeqAppend(ys[..b], ys[b + 1..], f);
    }
  }

  lemma FlattenAppend<T>(xss: seq<seq<T>>, ys: seq<T>)
    ensures Flatten(xss + [ys]) == Flatten(xss) + ys
  {
    assert (xss + [ys])[..|xss|] == xss;
  }

  lemma {:induction false} FlattenLength<T>(xss: seq<seq<T>>, n: nat)
    requires forall a :: 0 <= a < |xss| ==> |xss[a]| == n
    ensures |Flatten(xss)| == n * |xss|
  {
    if xss != [] {
      var init := xss[..|xss| - 1];
      FlattenLength(init, n);
      assert Flatten(xss) == Flatten(init) + xss[|xss| - 1];
      assert n * |xss| == n * |init| + n;
    }
  }

  /** Every element of the flattened list sits in one of the lists, and back. */
  lemma {:induction false} FlattenMember<T>(xss: seq<seq<T>>, x: T)
    ensures x in Flatten(xss) <==> exists a :: 0 <= a < |xss| && x in xss[a]
  {
    if xss != [] {
      FlattenMember(xss[..|xss| - 1], x);
      if x in xss[|xss| - 1] {
        assert x in Flatten(xss);
      }
    }
  }

  /** Lists that are each without repeats and pairwise disjoint flatten to a list without repeats. */
  lemma {:induction false} FlattenDistinct<T>(xss: seq<seq<T>>)
    requires forall a :: 0 <= a < |xss| ==> Distinct(xss[a])
    requires forall a, b, x :: 0 <= a < b < |xss| && x in xss[a] ==> x !in xss[b]
    ensures Distinct(Flatten(xss))
  {
    if xss != [] {
      var init := xss[..|xss| - 1];
      var last := xss[|xss| - 1];
      FlattenDistinct(init);
      var f := Flatten(init);
      assert Flatten(xss) == f + last;
      forall a, b | 0 <= a < b < |f + last|
        ensures (f + last)[a] != (f + last)[b]
      {
        if a < |f| && b >= |f| {
          FlattenMember(init, f[a]);
          var i :| 0 <= i < |init| && f[a] in init[i];
          assert last[b - |f|] in last;
        }
      }
    }
  }

  lemma {:induction false} MultisetDistinct<T>(xs: seq<T>, x: T)
    requires Distinct(xs)
    ensures multiset(xs)[x] <= 1
  {
    if xs != [] {
      var xs' := xs[..|xs| - 1];
      assert xs == xs' + [xs[|xs| - 1]];
      MultisetDistinct(xs', x);
      if x == xs[|xs| - 1] {
        assert x !in xs';
      }
    }
  }

  lemma RangeMultiset(n: nat, x: nat)
    ensures multiset(Range(n))[x] == if x < n then 1 else 0
  {
    MultisetDistinct(Range(n), x);
    if x < n {
      assert Range(n)[x] == x;
    }
  }

  /** A permutation has the right length, stays in range, hits every index, and never repeats. */
  lemma PermutationFacts(q: seq<nat>, n: nat)
    requires IsPermutation(q, n)
    ensures |q| == n
    ensures forall k :: 0 <= k < |q| ==> q[k] < n
    ensures forall x :: 0 <= x < n ==> x in q
    ensures Distinct(q)
  {
    assert |q| == |multiset(q)| == |multiset(Range(n))| == n;
    forall k | 0 <= k < |q|
      ensures q[k] < n
    {
      assert q[k] in multiset(Range(n));
    }
    forall x | 0 <= x < n
      ensures x in q
    {
      assert Range(n)[x] == x;
      assert x in multiset(q);
    }
    forall a, b | 0 <= a < b < |q|
      ensures q[a] != q[b]
    {
      if q[a] == q[b] {
        assert q == q[..a] + [q[a]] + q[a + 1..b] + [q[b]] + q[b + 1..];
        assert multiset(q)[q[a]] >= 2;
        RangeMultiset(n, q[a]);
      }
    }
  }

  /** A list without repeats that covers exactly the indices below `n` is a permutation. */
  lemma DistinctCoverPermutation(q: seq<nat>, n: nat)
    requires Distinct(q)
    requires forall k :: 0 <= k < |q| ==> q[k] < n
    requires forall x :: 0 <= x < n ==> x in q
    ensures IsPermutation(q, n)
  {
    forall x: nat
      ensures multiset(q)[x] == multiset(Range(n))[x]
    {
      MultisetDistinct(q, x);
      RangeMultiset(n, x);
      if x < n {
        assert x in q;
      } else {
        assert x !in q;
      }
    }
  }

  lemma RangeIsPermutation(n: nat)
    ensures IsPermutation(Range(n), n)
  {
  }

  function Image<A, B>(s: set<A>, f: A -> B): set<B>
  {
    set x | x in s :: f(x)
  }

  /** An injective image of a finite set is as large as the set. */
  lemma {:induction false} CardImage<A, B>(s: set<A>, f: A -> B)
    requires forall x, y :: x in s && y in s && f(x) == f(y) ==> x == y
    ensures |Image(s, f)| == |s|
    decreases |s|
  {
    if s != {} {
      var x :| x in s;
      var s' := s - {x};
      CardImage(s', f);
      assert Image(s, f) == Image(s', f) + {f(x)};
    }
  }

  /** There are `m` indices below `m`. */
  lemma CardRange(m: nat)
    ensures |Elems(Range(m))| == m
  {
    DistinctElems(Range(m));
  }

  /** A list of distinct values has as many values as elements. */
  lemma {:induction false} DistinctElems<T>(xs: seq<T>)
    requires Distinct(xs)
    ensures |Elems(xs)| == |xs|
  {
    if xs != [] {
      var xs', x := xs[..|xs| - 1], xs[|xs| - 1];
      forall a, b | 0 <= a < b < |xs'|
        ensures xs'[a] != xs'[b]
      {
        assert xs'[a] == xs[a] && xs'[b] == xs[b];
      }
      DistinctElems(xs');
      assert x !in Elems(xs');
      assert xs == xs' + [x];
      assert Elems(xs) == Elems(xs') + {x};
    }
  }

  /** A list of distinct indices below `n` has at most `n` elements. */
  lemma DistinctBounded(xs: seq<nat>, n: nat)
    requires Distinct(xs)
    requires forall k :: 0 <= k < |xs| ==> xs[k] < n
    ensures |xs| <= n
  {
    DistinctElems(xs);
    CardRange(n);
    forall x | x in Elems(xs)
      ensures x in Elems(Range(n))
    {
      assert Range(n)[x] == x;
    }
    assert Elems(xs) <= Elems(Range(n));
    assert Elems(Range(n)) == Elems(xs) + (Elems(Range(n)) - Elems(xs));
  }
}
