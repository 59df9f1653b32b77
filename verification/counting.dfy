/**
 * Symbol statistics of a string: how often a symbol occurs, how many positions
 * hold a strictly smaller symbol, and the sorted list of distinct symbols
 * (what `np.unique` and `sorted(alpha.keys())` produce).
 */
module Counting {
  import opened Seqs

  /** Number of positions of `s` holding `c`. */
  function Count(s: string, c: char): nat
  {
    if s == [] then 0 else Count(s[..|s| - 1], c) + (if s[|s| - 1] == c then 1 else 0)
  }

  /** Number of positions of `s` holding a symbol strictly smaller than `c`. */
  function Less(s: string, c: char): nat
  {
    if s == [] then 0 else Less(s[..|s| - 1], c) + (if s[|s| - 1] < c then 1 else 0)
  }

  predicate Ascending(xs: seq<char>)
  {
    forall a, b :: 0 <= a < b < |xs| ==> xs[a] < xs[b]
  }

  function InsertSymbol(xs: seq<char>, c: char): (r: seq<char>)
    requires Ascending(xs)
    ensures Ascending(r)
    ensures forall x :: x in r <==> x in xs || x == c
  {
    if xs == [] then [c]
    else if xs[0] < c then
      var rest := InsertSymbol(xs[1..], c);
      InsertBehind(xs, c, rest);
      [xs[0]] + rest
    else if xs[0] == c then xs
    else [c] + xs
  }

  /** Keeping the smallest symbol in front of the insertion into the rest. */
  lemma InsertBehind(xs: seq<char>, c: char, rest: seq<char>)
    requires Ascending(xs) && xs != [] && xs[0] < c
    requires Ascending(rest) && forall x :: x in rest <==> x in xs[1..] || x == c
    ensures Ascending([xs[0]] + rest)
    ensures forall x :: x in [xs[0]] + rest <==> x in xs || x == c
  {
    assert xs == [xs[0]] + xs[1..];
    forall b | 0 <= b < |rest|
      ensures xs[0] < rest[b]
    {
      assert rest[b] in rest;
      if rest[b] != c {
        var m :| 0 <= m < |xs| - 1 && xs[1..][m] == rest[b];
        assert xs[m + 1] == rest[b];
      }
    }
  }

  /** No listed symbol lies strictly between two neighbours of an ascending list. */
  lemma AscendingGap(xs: seq<char>, i: nat, c: char)
    requires Ascending(xs) && i + 1 < |xs| && c in xs
    ensures !(xs[i] < c < xs[i + 1])
  {
    var m :| 0 <= m < |xs| && xs[m] == c;
    if m < i {
      assert xs[m] < xs[i];
    } else if m > i + 1 {
      assert xs[i + 1] < xs[m];
    }
  }

  /** The distinct symbols of `s` in ascending order: `np.unique(s)`. */
  function Symbols(s: string): (r: seq<char>)
    ensures Ascending(r)
    ensures forall c :: c in r <==> c in s
  {
    if s == [] then []
    else
      assert forall c :: c in s <==> c in s[..|s| - 1] || c == s[|s| - 1];
      InsertSymbol(Symbols(s[..|s| - 1]), s[|s| - 1])
  }

  lemma CountStep(s: string, k: nat, c: char)
    requires k < |s|
    ensures Count(s[..k + 1], c) == Count(s[..k], c) + (if s[k] == c then 1 else 0)
  {
    assert s[..k + 1][..k] == s[..k];
  }

  lemma LessStep(s: string, k: nat, c: char)
    requires k < |s|
    ensures Less(s[..k + 1], c) == Less(s[..k], c) + (if s[k] < c then 1 else 0)
  {
    assert s[..k + 1][..k] == s[..k];
  }

  lemma {:induction false} CountBounds(s: string, c: char)
    ensures Count(s, c) <= |s|
    ensures c in s <==> Count(s, c) > 0
  {
    if s != [] {
      CountBounds(s[..|s| - 1], c);
      assert s == s[..|s| - 1] + [s[|s| - 1]];
    }
  }

  lemma {:induction false} CountPrefixMonotone(s: string, j: nat, k: nat, c: char)
    requires j <= k <= |s|
    ensures Count(s[..j], c) <= Count(s[..k], c)
    decreases k - j
  {
    if j < k {
      CountStep(s, k - 1, c);
      CountPrefixMonotone(s, j, k - 1, c);
    }
  }

  lemma {:induction false} CountAppend(a: string, b: string, c: char)
    ensures Count(a + b, c) == Count(a, c) + Count(b, c)
    decreases |b|
  {
    if b != [] {
      assert (a + b)[..|a + b| - 1] == a + b[..|b| - 1];
      CountAppend(a, b[..|b| - 1], c);
    } else {
      assert a + b == a;
    }
  }

  lemma {:induction false} LessAppend(a: string, b: string, c: char)
    ensures Less(a + b, c) == Less(a, c) + Less(b, c)
    decreases |b|
  {
    if b != [] {
      assert (a + b)[..|a + b| - 1] == a + b[..|b| - 1];
      LessAppend(a, b[..|b| - 1], c);
    } else {
      assert a + b == a;
    }
  }

  /** Both statistics depend only on the multiset of symbols. */
  lemma {:induction false} CountLessPermutation(a: string, b: string, c: char)
    requires multiset(a) == multiset(b)
    ensures Count(a, c) == Count(b, c) && Less(a, c) == Less(b, c)
    decreases |a|
  {
    if a == [] {
      assert |b| == |multiset(b)| == 0;
    } else {
      var x := a[|a| - 1];
      var a' := a[..|a| - 1];
      assert a == a' + [x];
      assert x in multiset(b);
      var i :| 0 <= i < |b| && b[i] == x;
      var b' := b[..i] + b[i + 1..];
      assert b == b[..i] + [x] + b[i + 1..];
      assert multiset(a') == multiset(a) - multiset{x};
      assert multiset(b') == multiset(b) - multiset{x};
      CountLessPermutation(a', b', c);
      CountAppend(b[..i], [x], c);
      CountAppend(b[..i] + [x], b[i + 1..], c);
      CountAppend(b[..i], b[i + 1..], c);
      LessAppend(b[..i], [x], c);
      LessAppend(b[..i] + [x], b[i + 1..], c);
      LessAppend(b[..i], b[i + 1..], c);
      assert [x][..0] == [];
    }
  }

  /** Symbols below `c`, then all copies of `c`, stay below any larger `d`. */
  lemma {:induction false} LessCountBelow(s: string, c: char, d: char)
    requires c < d
    ensures Less(s, c) + Count(s, c) <= Less(s, d)
  {
    if s != [] {
      LessCountBelow(s[..|s| - 1], c, d);
    }
  }

  /** No symbol below the smallest one present. */
  lemma {:induction false} LessNone(s: string, c: char)
    requires forall i :: 0 <= i < |s| ==> c <= s[i]
    ensures Less(s, c) == 0
  {
    if s != [] {
      LessNone(s[..|s| - 1], c);
    }
  }

  /** Moving from one present symbol to the next present one adds its count. */
  lemma {:induction false} LessNext(s: string, c: char, d: char)
    requires c < d
    requires forall i :: 0 <= i < |s| ==> !(c < s[i] < d)
    ensures Less(s, d) == Less(s, c) + Count(s, c)
  {
    if s != [] {
      LessNext(s[..|s| - 1], c, d);
    }
  }

  /** Every symbol sits below the length once all smaller ones are counted. */
  lemma {:induction false} LessCountBound(s: string, c: char)
    ensures Less(s, c) + Count(s, c) <= |s|
  {
    if s != [] {
      LessCountBound(s[..|s| - 1], c);
    }
  }

  /** The positions below `k` holding `c`. */
  function Positions(s: string, k: nat, c: char): set<int>
    requires k <= |s|
  {
    set j | 0 <= j < k && s[j] == c
  }

  /** The positions below `k` holding a symbol smaller than `c`. */
  function PositionsBelow(s: string, k: nat, c: char): set<int>
    requires k <= |s|
  {
    set j | 0 <= j < k && s[j] < c
  }

  /** `Count` of a prefix as the size of a set of positions. */
  lemma {:induction false} CountAsSet(s: string, k: nat, c: char)
    requires k <= |s|
    ensures Count(s[..k], c) == |Positions(s, k, c)|
  {
    if k > 0 {
      CountAsSet(s, k - 1, c);
      CountStep(s, k - 1, c);
      var before, after := Positions(s, k - 1, c), Positions(s, k, c);
      if s[k - 1] == c {
        assert after == before + {k - 1};
        assert k - 1 !in before;
        assert |after| == |before| + 1;
      } else {
        assert after == before;
      }
    }
  }

  /** `Less` as the size of a set of positions. */
  lemma {:induction false} LessAsSet(s: string, k: nat, c: char)
    requires k <= |s|
    ensures Less(s[..k], c) == |PositionsBelow(s, k, c)|
  {
    if k > 0 {
      LessAsSet(s, k - 1, c);
      LessStep(s, k - 1, c);
      var before, after := PositionsBelow(s, k - 1, c), PositionsBelow(s, k, c);
      if s[k - 1] < c {
        assert after == before + {k - 1};
        assert k - 1 !in before;
        assert |after| == |before| + 1;
      } else {
        assert after == before;
      }
    }
  }
}
