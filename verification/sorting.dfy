/**
 * Python's `sorted(xs, key=k)` and `list.sort()`.  Python sorts stably: items
 * with equal keys keep their input order.  A stable sort's output is fixed by
 * its input and its keys, so the insertion sort below gives exactly what
 * `sorted` gives.
 */
module Sorting {
  import opened Lex
  import opened Seqs

  /** The key of a plain `sorted(xs)` on strings. */
  function Id(w: string): string
  {
    w
  }

  predicate SortedBy<T>(xs: seq<T>, key: T -> string)
  {
    forall a, b :: 0 <= a < b < |xs| ==> LexLe(key(xs[a]), key(xs[b]))
  }

  /** Equal keys keep ascending order (for lists of indices). */
  predicate TiesAscending(xs: seq<nat>, key: nat -> string)
  {
    forall a, b :: 0 <= a < b < |xs| && key(xs[a]) == key(xs[b]) ==> xs[a] < xs[b]
  }

  predicate StrictlyIncreasing(xs: seq<nat>)
  {
    forall a, b :: 0 <= a < b < |xs| ==> xs[a] < xs[b]
  }

  /** Two strictly increasing lists with the same items are the same list. */
  lemma {:induction false} IncreasingUnique(xs: seq<nat>, ys: seq<nat>)
    requires StrictlyIncreasing(xs) && StrictlyIncreasing(ys)
    requires forall x :: x in xs <==> x in ys
    ensures xs == ys
    decreases |xs|
  {
    assert xs != [] ==> xs[0] in xs;
    assert ys != [] ==> ys[0] in ys;
    if xs != [] && ys != [] {
      var i :| 0 <= i < |ys| && ys[i] == xs[0];
      var k :| 0 <= k < |xs| && xs[k] == ys[0];
      assert xs[0] == ys[0];
      forall x
        ensures x in xs[1..] <==> x in ys[1..]
      {
        TailItems(xs, x);
        TailItems(ys, x);
      }
      IncreasingUnique(xs[1..], ys[1..]);
      assert xs == [xs[0]] + xs[1..] && ys == [ys[0]] + ys[1..];
    }
  }

  /** The tail of a strictly increasing list holds everything but its head. */
  lemma TailItems(xs: seq<nat>, x: nat)
    requires StrictlyIncreasing(xs) && xs != []
    ensures StrictlyIncreasing(xs[1..])
    ensures x in xs[1..] <==> x in xs && x != xs[0]
  {
    if x in xs && x != xs[0] {
      var k :| 0 <= k < |xs| && xs[k] == x;
      assert xs[1..][k - 1] == x;
    }
  }

  /** Puts `x` after every item whose key is not above its own. */
  function Insert<T>(ys: seq<T>, x: T, key: T -> string): (r: seq<T>)
    ensures multiset(r) == multiset(ys) + multiset{x}
  {
    if ys == [] then [x]
    else if LexLe(key(ys[0]), key(x)) then
      assert ys == [ys[0]] + ys[1..];
      [ys[0]] + Insert(ys[1..], x, key)
    else [x] + ys
  }

  function SortBy<T>(xs: seq<T>, key: T -> string): (r: seq<T>)
    ensures multiset(r) == multiset(xs)
    ensures |r| == |xs|
  {
    if xs == [] then []
    else
      assert xs == xs[..|xs| - 1] + [xs[|xs| - 1]];
      var r := Insert(SortBy(xs[..|xs| - 1], key), xs[|xs| - 1], key);
      assert |r| == |multiset(r)|;
      r
  }

  lemma {:induction false} InsertSorted<T>(ys: seq<T>, x: T, key: T -> string)
    requires SortedBy(ys, key)
    ensures SortedBy(Insert(ys, x, key), key)
  {
    if ys != [] {
      var r := Insert(ys, x, key);
      if LexLe(key(ys[0]), key(x)) {
        var rest := Insert(ys[1..], x, key);
        InsertSorted(ys[1..], x, key);
        forall b | 0 <= b < |rest|
          ensures LexLe(key(ys[0]), key(rest[b]))
        {
          assert rest[b] in multiset(rest);
          if rest[b] != x {
            assert rest[b] in ys[1..];
          }
        }
      } else {
        LexNotLe(key(ys[0]), key(x));
        forall b | 0 <= b < |ys|
          ensures LexLe(key(x), key(ys[b]))
        {
          LexLeReflexive(key(ys[0]));
          LexLeTransitive(key(x), key(ys[0]), key(ys[b]));
        }
      }
    }
  }

  /** `sorted` returns its items in non-decreasing key order. */
  lemma {:induction false} SortBySorted<T>(xs: seq<T>, key: T -> string)
    ensures SortedBy(SortBy(xs, key), key)
  {
    if xs != [] {
      SortBySorted(xs[..|xs| - 1], key);
      InsertSorted(SortBy(xs[..|xs| - 1], key), xs[|xs| - 1], key);
    }
  }

  lemma {:induction false} InsertTies(ys: seq<nat>, x: nat, key: nat -> string)
    requires SortedBy(ys, key) && TiesAscending(ys, key)
    requires forall k :: 0 <= k < |ys| ==> ys[k] < x
    ensures TiesAscending(Insert(ys, x, key), key)
  {
    if ys != [] {
      if LexLe(key(ys[0]), key(x)) {
        var rest := Insert(ys[1..], x, key);
        InsertTies(ys[1..], x, key);
        forall b | 0 <= b < |rest| && key(ys[0]) == key(rest[b])
          ensures ys[0] < rest[b]
        {
          assert rest[b] in multiset(rest);
          if rest[b] != x {
            assert rest[b] in ys[1..];
          }
        }
        TiesCons(ys[0], rest, key);
        assert Insert(ys, x, key) == [ys[0]] + rest;
      } else {
        forall b | 0 <= b < |ys|
          ensures key(x) != key(ys[b])
        {
          LexLeReflexive(key(ys[0]));
          assert LexLe(key(ys[0]), key(ys[b]));
        }
        TiesCons(x, ys, key);
      }
    }
  }

  /** An index in front of a list keeps ties ascending when it is below every index with its key. */
  lemma TiesCons(y: nat, rest: seq<nat>, key: nat -> string)
    requires TiesAscending(rest, key)
    requires forall b :: 0 <= b < |rest| && key(y) == key(rest[b]) ==> y < rest[b]
    ensures TiesAscending([y] + rest, key)
  {
    var r := [y] + rest;
    forall a, b | 0 <= a < b < |r| && key(r[a]) == key(r[b])
      ensures r[a] < r[b]
    {
      assert r[b] == rest[b - 1];
      if a > 0 {
        assert r[a] == rest[a - 1];
      }
    }
  }

  /**
   * Sorting a list of ascending indices is stable: indices with equal keys
   * stay in ascending order.
   */
  lemma {:induction false} SortByTiesAscending(xs: seq<nat>, key: nat -> string)
    requires StrictlyIncreasing(xs)
    ensures TiesAscending(SortBy(xs, key), key)
  {
    if xs != [] {
      var xs' := xs[..|xs| - 1];
      var s' := SortBy(xs', key);
      SortByTiesAscending(xs', key);
      SortBySorted(xs', key);
      forall k | 0 <= k < |s'|
        ensures s'[k] < xs[|xs| - 1]
      {
        assert s'[k] in multiset(xs');
      }
      InsertTies(s', xs[|xs| - 1], key);
    }
  }

  lemma SortedFirstIsLeast<T>(a: seq<T>, key: T -> string, x: T)
    requires SortedBy(a, key) && x in a
    ensures LexLe(key(a[0]), key(x))
  {
    var i :| 0 <= i < |a| && a[i] == x;
    LexLeReflexive(key(a[0]));
  }

  lemma SortedTail<T>(a: seq<T>, key: T -> string)
    requires SortedBy(a, key) && a != []
    ensures SortedBy(a[1..], key)
  {
    forall i, j | 0 <= i < j < |a| - 1
      ensures LexLe(key(a[1..][i]), key(a[1..][j]))
    {
      assert a[1..][i] == a[i + 1] && a[1..][j] == a[j + 1];
    }
  }

  /**
   * Two sorted rearrangements of the same items are the same list, when no two
   * different items share a key.
   */
  lemma {:induction false} SortedUnique<T>(a: seq<T>, b: seq<T>, key: T -> string)
    requires SortedBy(a, key) && SortedBy(b, key)
    requires multiset(a) == multiset(b)
    requires forall x, y :: x in a && y in a && key(x) == key(y) ==> x == y
    ensures a == b
    decreases |a|
  {
    assert |a| == |multiset(a)| == |multiset(b)| == |b|;
    if a != [] {
      SameFirst(a, b, key);
      TailMultiset(a);
      TailMultiset(b);
      SortedTail(a, key);
      SortedTail(b, key);
      SortedUnique(a[1..], b[1..], key);
      HeadTailEqual(a, b);
    }
  }

  /** Lists with the same first item and the same rest are equal. */
  lemma HeadTailEqual<T>(a: seq<T>, b: seq<T>)
    requires a != [] && b != [] && a[0] == b[0] && a[1..] == b[1..]
    ensures a == b
  {
    assert a == [a[0]] + a[1..] && b == [b[0]] + b[1..];
  }

  /** Two sorted rearrangements of the same items with unique keys start alike. */
  lemma SameFirst<T>(a: seq<T>, b: seq<T>, key: T -> string)
    requires SortedBy(a, key) && SortedBy(b, key)
    requires multiset(a) == multiset(b) && a != [] && b != []
    requires forall x, y :: x in a && y in a && key(x) == key(y) ==> x == y
    ensures a[0] == b[0]
  {
    assert a[0] in multiset(b) && b[0] in multiset(a);
    SortedFirstIsLeast(b, key, a[0]);
    SortedFirstIsLeast(a, key, b[0]);
    LexLeAntisymmetric(key(a[0]), key(b[0]));
  }

  lemma TailMultiset<T>(a: seq<T>)
    requires a != []
    ensures multiset(a[1..]) == multiset(a) - multiset{a[0]}
  {
    assert a == [a[0]] + a[1..];
  }

  lemma MapSeqCons<A, B>(x: A, xs: seq<A>, f: A -> B)
    ensures MapSeq([x] + xs, f) == [f(x)] + MapSeq(xs, f)
  {
  }

  lemma {:induction false} InsertMap<A, B>(ys: seq<A>, x: A, f: A -> B, keyA: A -> string, keyB: B -> string)
    requires forall z :: z in ys + [x] ==> keyA(z) == keyB(f(z))
    ensures MapSeq(Insert(ys, x, keyA), f) == Insert(MapSeq(ys, f), f(x), keyB)
  {
    if ys != [] {
      assert ys[0] in ys + [x];
      assert MapSeq(ys, f) == [f(ys[0])] + MapSeq(ys[1..], f);
      if LexLe(keyA(ys[0]), keyA(x)) {
        forall z | z in ys[1..] + [x]
          ensures keyA(z) == keyB(f(z))
        {
          assert z in ys + [x];
        }
        InsertMap(ys[1..], x, f, keyA, keyB);
        MapSeqCons(ys[0], Insert(ys[1..], x, keyA), f);
      } else {
        MapSeqCons(x, ys, f);
      }
    }
  }

  /**
   * Sorting items and then projecting them equals projecting first and
   * sorting by the projected key.
   */
  lemma {:induction false} SortByMap<A, B>(xs: seq<A>, f: A -> B, keyA: A -> string, keyB: B -> string)
    requires forall z :: z in xs ==> keyA(z) == keyB(f(z))
    ensures MapSeq(SortBy(xs, keyA), f) == SortBy(MapSeq(xs, f), keyB)
  {
    if xs != [] {
      var xs' := xs[..|xs| - 1];
      var x := xs[|xs| - 1];
      SortByMap(xs', f, keyA, keyB);
      assert MapSeq(xs, f)[..|xs| - 1] == MapSeq(xs', f);
      forall z | z in SortBy(xs', keyA) + [x]
        ensures keyA(z) == keyB(f(z))
      {
        if z != x {
          assert z in multiset(SortBy(xs', keyA));
          assert z in xs';
        }
      }
      InsertMap(SortBy(xs', keyA), x, f, keyA, keyB);
    }
  }
}
