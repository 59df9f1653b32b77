/**
 * The induced-sorting pass of isbwt.py: tag every suffix S or L from right to
 * left, collect the LMS (left-most S) positions, then fill the suffix array
 * in three bucket sweeps -- LMS positions at bucket ends, L-type positions
 * induced at bucket fronts left to right, S-type positions induced at bucket
 * ends right to left.  There is no recursive reduction step, so the result is
 * not claimed to be sorted.
 */
module InducedSort {
  import opened Lex
  import opened Seqs
  import opened Sorting
  import opened Counting
  import Ranks

  datatype SType = S | L

  /**
   * The tag of position `i`: the last position is `S`; otherwise `S` when the
   * symbol is smaller than the next one, or equal to it with the next one
   * tagged `S`, and `L` otherwise.
   */
  function TypeAt(s: string, i: nat): SType
    requires i < |s|
    decreases |s| - i
  {
    if i == |s| - 1 then S
    else if s[i] < s[i + 1] || (s[i] == s[i + 1] && TypeAt(s, i + 1) == S) then S
    else L
  }

  /** The tags of every position. */
  function Types(s: string): (types: seq<SType>)
    ensures |types| == |s|
  {
    seq(|s|, i requires 0 <= i < |s| => TypeAt(s, i))
  }

  /** `p` is an LMS position: an S position right after an L position. */
  predicate IsLms(s: string, p: nat)
  {
    0 < p < |s| && TypeAt(s, p - 1) == L && TypeAt(s, p) == S
  }

  /** The input ends with a symbol that occurs nowhere else and is smaller than all others. */
  predicate Sentinel(s: string)
  {
    |s| > 0 && forall j :: 0 <= j < |s| - 1 ==> s[|s| - 1] < s[j]
  }

  /**
   * `suffix_types`: one right-to-left pass writing the tags into an array and
   * appending every LMS position met, then reversing that list.  An empty
   * input has no last slot to tag, so `types[-1]` fails on it.
   */
  method SuffixTypes(s: string) returns (types: seq<SType>, lms: seq<nat>)
    requires |s| > 0
    ensures types == Types(s)
    ensures StrictlyIncreasing(lms)
    ensures forall p: nat :: p in lms <==> IsLms(s, p)
    ensures lms == LmsFrom(s, 0)
  {
    var n := |s|;
    var t := new SType[n];
    t[n - 1] := S;
    var found: seq<nat> := [];
    var i: int := n - 2;
    while i >= 0
      invariant Tagged(s, i, t[..], found)
      decreases i + 1
    {
      found := TagOne(s, t, i, found);
      i := i - 1;
    }
    types := t[..];
    lms := Reverse(found);
    TagDone(s, types, found);
    LmsListUnique(s, lms);
  }

  /** One pass of the loop of `suffix_types`: tag position `i` and record `i + 1` if it is LMS. */
  method TagOne(s: string, t: array<SType>, i: nat, found: seq<nat>) returns (found': seq<nat>)
    requires Tagged(s, i, t[..], found)
    modifies t
    ensures Tagged(s, i - 1, t[..], found')
  {
    TagStep(s, i, t[..], found);
    found' := found;
    if s[i] < s[i + 1] || (s[i] == s[i + 1] && t[i + 1] == S) {
      t[i] := S;
    } else {
      t[i] := L;
      if t[i + 1] == S {
        var p: nat := i + 1;
        found' := found + [p];
      }
    }
  }

  /**
   * What the loop of `suffix_types` knows with `i` next: the tags to its
   * right are final, and `found` lists the LMS positions from `i + 2` on,
   * right to left.
   */
  ghost predicate Tagged(s: string, i: int, tags: seq<SType>, found: seq<nat>)
  {
    && -1 <= i <= |s| - 2
    && |tags| == |s|
    && (forall j :: i < j < |s| ==> tags[j] == TypeAt(s, j))
    && (forall a, b :: 0 <= a < b < |found| ==> found[a] > found[b])
    && (forall p: nat :: p in found <==> i + 2 <= p && IsLms(s, p))
  }

  lemma TagStep(s: string, i: int, tags: seq<SType>, found: seq<nat>)
    requires Tagged(s, i, tags, found) && i >= 0
    ensures var tag := TypeAt(s, i);
      && (tag == S <==> s[i] < s[i + 1] || (s[i] == s[i + 1] && tags[i + 1] == S))
      && Tagged(s, i - 1, tags[i := tag], if tag == L && tags[i + 1] == S then found + [i + 1] else found)
  {
    assert forall a :: 0 <= a < |found| ==> found[a] in found;
  }

  lemma TagDone(s: string, tags: seq<SType>, found: seq<nat>)
    requires |s| > 0 && Tagged(s, -1, tags, found)
    ensures tags == Types(s)
    ensures StrictlyIncreasing(Reverse(found))
    ensures forall p: nat :: p in Reverse(found) <==> IsLms(s, p)
  {
    ReverseMultiset(found);
    assert forall p :: p in Reverse(found) <==> p in multiset(found);
  }

  /**
   * With the sentinel, the tags are the order of neighbouring suffixes:
   * position `i` is `S` exactly when its suffix sorts before the next one.
   */
  lemma {:induction false} TypeOrder(s: string, i: nat)
    requires Sentinel(s) && i + 1 < |s|
    ensures TypeAt(s, i) == S <==> LexLt(s[i..], s[i + 1..])
    decreases |s| - i
  {
    assert s[i..] == [s[i]] + s[i + 1..];
    assert s[i + 1..] == [s[i + 1]] + s[i + 2..];
    LexLtCons(s[i], s[i + 1..], s[i + 1], s[i + 2..]);
    if i + 2 < |s| {
      TypeOrder(s, i + 1);
    } else {
      assert s[i] != s[i + 1];
    }
  }

  /** With the sentinel and at least two symbols, the last position is an LMS position. */
  lemma SentinelLms(s: string)
    requires Sentinel(s) && |s| >= 2
    ensures IsLms(s, |s| - 1)
  {
  }

  /** Two LMS positions are at least two apart. */
  lemma LmsGap(s: string, p: nat, q: nat)
    requires IsLms(s, p) && IsLms(s, q) && p < q
    ensures p + 2 <= q
  {
  }

  /** The LMS list that `suffix_types` returns: ascending, exactly the LMS positions. */
  ghost predicate LmsList(s: string, lms: seq<nat>)
  {
    StrictlyIncreasing(lms) && forall p: nat :: p in lms <==> IsLms(s, p)
  }

  /** The LMS positions from `p` on, ascending. */
  function LmsFrom(s: string, p: nat): seq<nat>
    decreases |s| - p
  {
    if p >= |s| then [] else (if IsLms(s, p) then [p] else []) + LmsFrom(s, p + 1)
  }

  /** `LmsFrom(s, p)` is ascending and lists exactly the LMS positions from `p` on. */
  lemma {:induction false} LmsFromList(s: string, p: nat)
    ensures StrictlyIncreasing(LmsFrom(s, p))
    ensures forall x: nat :: x in LmsFrom(s, p) <==> p <= x && IsLms(s, x)
    decreases |s| - p
  {
    if p < |s| {
      LmsFromList(s, p + 1);
      var rest := LmsFrom(s, p + 1);
      var head: seq<nat> := if IsLms(s, p) then [p] else [];
      assert LmsFrom(s, p) == head + rest;
      forall k | 0 <= k < |rest|
        ensures p < rest[k]
      {
        assert rest[k] in rest;
      }
      forall x: nat
        ensures x in head + rest <==> x in head || x in rest
      {
      }
    }
  }

  /** There is one LMS list of `s`: `LmsFrom(s, 0)`. */
  lemma LmsListUnique(s: string, lms: seq<nat>)
    requires LmsList(s, lms)
    ensures lms == LmsFrom(s, 0)
  {
    LmsFromList(s, 0);
    IncreasingUnique(lms, LmsFrom(s, 0));
  }

  /**
   * `get_suffixes`: for consecutive LMS positions, the substring from one to
   * the next, both ends included.
   */
  method GetSuffixes(s: string, lms: seq<nat>) returns (suffixes: seq<string>)
    requires LmsList(s, lms)
    ensures lms == [] ==> suffixes == []
    ensures lms != [] ==> Slices(s, lms, suffixes)
  {
    assert forall a :: 0 <= a < |lms| ==> lms[a] in lms;
    suffixes := [];
    var count := if lms == [] then 0 else |lms| - 1;
    for i := 0 to count
      invariant |suffixes| == i
      invariant forall k :: 0 <= k < i ==> suffixes[k] == s[lms[k]..lms[k + 1] + 1]
    {
      suffixes := suffixes + [s[lms[i]..lms[i + 1] + 1]];
    }
  }

  /** A string without its last symbol. */
  function DropLast(w: string): string
  {
    if w == [] then w else w[..|w| - 1]
  }

  /** The slices of `get_suffixes` for an ascending list of positions of `s`. */
  predicate Slices(s: string, lms: seq<nat>, suffixes: seq<string>)
  {
    && |lms| >= 1
    && StrictlyIncreasing(lms)
    && lms[|lms| - 1] < |s|
    && |suffixes| == |lms| - 1
    && (forall k :: 0 <= k < |suffixes| ==> suffixes[k] == s[lms[k]..lms[k + 1] + 1])
  }

  lemma SlicesInit(s: string, lms: seq<nat>, suffixes: seq<string>)
    requires Slices(s, lms, suffixes) && |lms| >= 2
    ensures Slices(s, lms[..|lms| - 1], suffixes[..|suffixes| - 1])
  {
  }

  lemma SlicesLast(s: string, lms: seq<nat>, suffixes: seq<string>)
    requires Slices(s, lms, suffixes) && |lms| >= 2
    requires Flatten(MapSeq(suffixes[..|suffixes| - 1], DropLast)) == s[lms[0]..lms[|lms| - 2]]
    ensures Flatten(MapSeq(suffixes, DropLast)) == s[lms[0]..lms[|lms| - 1]]
  {
    var init := suffixes[..|suffixes| - 1];
    var last := suffixes[|suffixes| - 1];
    var u := lms[|lms| - 2];
    var v := lms[|lms| - 1];
    assert MapSeq(suffixes, DropLast) == MapSeq(init, DropLast) + [DropLast(last)];
    FlattenAppend(MapSeq(init, DropLast), DropLast(last));
    assert DropLast(last) == s[u..v];
    assert s[lms[0]..v] == s[lms[0]..u] + s[u..v];
  }

  /** Without their last symbols, the slices spell `s` from the first position to the last. */
  lemma {:induction false} SlicesConcat(s: string, lms: seq<nat>, suffixes: seq<string>)
    requires Slices(s, lms, suffixes)
    ensures Flatten(MapSeq(suffixes, DropLast)) == s[lms[0]..lms[|lms| - 1]]
    decreases |lms|
  {
    if |lms| >= 2 {
      SlicesInit(s, lms, suffixes);
      SlicesConcat(s, lms[..|lms| - 1], suffixes[..|suffixes| - 1]);
      SlicesLast(s, lms, suffixes);
    }
  }

  /**
   * The LMS substrings chain together: each has at least three symbols,
   * each ends on the symbol the next one starts with, and without their
   * last symbols they spell `s` from the first LMS position up to the last.
   */
  lemma SuffixesChain(s: string, lms: seq<nat>, suffixes: seq<string>)
    requires LmsList(s, lms) && Slices(s, lms, suffixes)
    ensures forall k :: 0 <= k < |suffixes| ==> |suffixes[k]| >= 3
    ensures forall k :: 0 <= k && k + 1 < |suffixes| ==> suffixes[k][|suffixes[k]| - 1] == suffixes[k + 1][0]
    ensures Flatten(MapSeq(suffixes, DropLast)) == s[lms[0]..lms[|lms| - 1]]
  {
    forall k | 0 <= k < |suffixes|
      ensures |suffixes[k]| >= 3
    {
      assert lms[k] in lms && lms[k + 1] in lms;
      LmsGap(s, lms[k], lms[k + 1]);
    }
    forall k | 0 <= k && k + 1 < |suffixes|
      ensures suffixes[k][|suffixes[k]| - 1] == suffixes[k + 1][0]
    {
      assert lms[k + 1] < lms[k + 2];
      assert suffixes[k + 1] == s[lms[k + 1]..lms[k + 2] + 1];
      assert suffixes[k][|suffixes[k]| - 1] == s[lms[k + 1]] == suffixes[k + 1][0];
    }
    SlicesConcat(s, lms, suffixes);
  }

  /** `np.unique(s, return_counts=True)`: the counts that go with the sorted alphabet `Symbols(s)`. */
  function Counts(s: string): (counter: seq<nat>)
    ensures |counter| == |Symbols(s)|
  {
    seq(|Symbols(s)|, j requires 0 <= j < |Symbols(s)| => Count(s, Symbols(s)[j]))
  }

  function Sum(xs: seq<nat>): nat
  {
    if xs == [] then 0 else Sum(xs[..|xs| - 1]) + xs[|xs| - 1]
  }

  /** `np.cumsum`: the running totals. */
  function CumSum(xs: seq<nat>): (r: seq<nat>)
    ensures |r| == |xs|
  {
    seq(|xs|, j requires 0 <= j < |xs| => Sum(xs[..j + 1]))
  }

  /** The counts of the symbols below `Symbols(s)[j]` add up to the number of smaller symbols. */
  lemma {:induction false} SumCounts(s: string, j: nat)
    requires j < |Symbols(s)|
    ensures Sum(Counts(s)[..j]) == Less(s, Symbols(s)[j])
  {
    var alphabet := Symbols(s);
    if j == 0 {
      forall p | 0 <= p < |s|
        ensures alphabet[0] <= s[p]
      {
        assert s[p] in alphabet;
      }
      LessNone(s, alphabet[0]);
    } else {
      SumCounts(s, j - 1);
      assert Counts(s)[..j][..j - 1] == Counts(s)[..j - 1];
      Ranks.LessNextSymbol(s, j - 1);
    }
  }

  /**
   * The buckets: `cumsum(counter) - counter` is the first row of each
   * symbol's bucket, the number of smaller symbols, and `cumsum(counter) - 1`
   * its last row.
   */
  lemma BucketBounds(s: string, j: nat)
    requires j < |Symbols(s)|
    ensures CumSum(Counts(s))[j] as int - Counts(s)[j] == Start(s, Symbols(s)[j])
    ensures CumSum(Counts(s))[j] as int - 1 == End(s, Symbols(s)[j])
  {
    SumCounts(s, j);
    assert Counts(s)[..j + 1][..j] == Counts(s)[..j];
  }

  /** The first row of the bucket of `c`. */
  function Start(s: string, c: char): int
  {
    Less(s, c)
  }

  /** The last row of the bucket of `c`. */
  function End(s: string, c: char): int
  {
    Less(s, c) + Count(s, c) - 1
  }

  /** `alphabet == c`, used as a mask to pick one head: the position of `c` in the alphabet. */
  function SymbolIndex(alphabet: seq<char>, c: char): (j: nat)
    requires c in alphabet
    ensures j < |alphabet| && alphabet[j] == c
  {
    if alphabet[0] == c then 0 else 1 + SymbolIndex(alphabet[1..], c)
  }

  /** Buckets of different symbols of `s` do not overlap, and all lie within the rows. */
  lemma BucketsDisjoint(s: string, c: char, d: char)
    requires c in s && d in s
    ensures 0 <= Start(s, c) <= End(s, c) < |s|
    ensures c < d ==> End(s, c) < Start(s, d)
  {
    CountBounds(s, c);
    LessCountBound(s, c);
    if c < d {
      LessCountBelow(s, c, d);
    }
  }

  /** Every listed position is a position of `s`. */
  predicate Positioned(s: string, lms: seq<nat>)
  {
    forall a :: 0 <= a < |lms| ==> lms[a] < |s|
  }

  /** The symbols at the listed positions. */
  function SymbolsAt(s: string, lms: seq<nat>): (syms: seq<char>)
    requires Positioned(s, lms)
    ensures |syms| == |lms|
  {
    seq(|lms|, a requires 0 <= a < |lms| => s[lms[a]])
  }

  /**
   * Distinct positions holding `c` number fewer than the occurrences of `c`:
   * the LMS positions before the `a`-th one with its symbol leave a free row
   * in that symbol's bucket.
   */
  lemma LmsCountBound(s: string, lms: seq<nat>, a: nat)
    requires Positioned(s, lms) && StrictlyIncreasing(lms) && a < |lms|
    ensures Count(SymbolsAt(s, lms)[..a], s[lms[a]]) < Count(s, s[lms[a]])
  {
    var syms := SymbolsAt(s, lms);
    var c := s[lms[a]];
    CountAsSet(syms, a + 1, c);
    CountStep(syms, a, c);
    CountAsSet(s, |s|, c);
    assert s[..|s|] == s;
    var f := (b: int) => if 0 <= b < |lms| then lms[b] as int else -1;
    var mine := Positions(syms, a + 1, c);
    CardImage(mine, f);
    var image := Image(mine, f);
    var all := Positions(s, |s|, c);
    assert image <= all;
    assert |all| == |image| + |all - image|;
  }

  /**
   * The row that receives the `a`-th LMS position: the last row of its
   * symbol's bucket, one row further up for every earlier LMS position with
   * the same symbol.
   */
  function Slot(s: string, lms: seq<nat>, a: nat): int
    requires Positioned(s, lms) && a < |lms|
  {
    End(s, s[lms[a]]) - Count(SymbolsAt(s, lms)[..a], s[lms[a]])
  }

  /**
   * LMS positions of one symbol fill their bucket from the end down: a later
   * one gets a lower row.
   */
  lemma SlotsDescend(s: string, lms: seq<nat>, a: nat, b: nat)
    requires Positioned(s, lms) && a < b < |lms| && s[lms[a]] == s[lms[b]]
    ensures Slot(s, lms, b) < Slot(s, lms, a)
  {
    var syms := SymbolsAt(s, lms);
    var c := s[lms[a]];
    CountStep(syms, a, c);
    CountPrefixMonotone(syms, a + 1, b, c);
  }

  /**
   * The rows after the first `a` LMS positions are placed: each sits at its
   * slot, and every row that is the slot of none of them still holds `-1`.
   */
  ghost predicate Filled(s: string, lms: seq<nat>, a: nat, sa: seq<int>)
    requires Positioned(s, lms) && a <= |lms|
  {
    && |sa| == |s|
    && (forall b :: 0 <= b < a ==> Start(s, s[lms[b]]) <= Slot(s, lms, b) < |s| && sa[Slot(s, lms, b)] == lms[b])
    && (forall x :: 0 <= x < |sa| && (forall b :: 0 <= b < a ==> Slot(s, lms, b) != x) ==> sa[x] == -1)
  }

  /** What the LMS loop of `induce_LMS` knows after placing `lms[..a]`. */
  ghost predicate Placed(s: string, lms: seq<nat>, a: nat, sa: seq<int>, heads: seq<int>)
  {
    && Positioned(s, lms)
    && a <= |lms|
    && |heads| == |Symbols(s)|
    && (forall j :: 0 <= j < |heads| ==> heads[j] == End(s, Symbols(s)[j]) - Count(SymbolsAt(s, lms)[..a], Symbols(s)[j]))
    && Filled(s, lms, a, sa)
  }

  lemma PlaceStart(s: string, lms: seq<nat>, sa: seq<int>, heads: seq<int>)
    requires Positioned(s, lms) && |sa| == |s| && forall x :: 0 <= x < |s| ==> sa[x] == -1
    requires |heads| == |Symbols(s)|
    requires forall j :: 0 <= j < |heads| ==> heads[j] == CumSum(Counts(s))[j] as int - 1
    ensures Placed(s, lms, 0, sa, heads)
  {
    forall j | 0 <= j < |heads|
      ensures heads[j] == End(s, Symbols(s)[j]) - Count(SymbolsAt(s, lms)[..0], Symbols(s)[j])
    {
      BucketBounds(s, j);
    }
  }

  lemma PlaceStep(s: string, lms: seq<nat>, a: nat, sa: seq<int>, heads: seq<int>, j: nat)
    requires StrictlyIncreasing(lms) && Placed(s, lms, a, sa, heads) && a < |lms|
    requires j < |Symbols(s)| && Symbols(s)[j] == s[lms[a]]
    ensures heads[j] == Slot(s, lms, a)
    ensures 0 <= heads[j] < |s|
    ensures Placed(s, lms, a + 1, sa[heads[j] := lms[a]], heads[j := heads[j] - 1])
  {
    var c := s[lms[a]];
    var h := heads[j];
    LmsCountBound(s, lms, a);
    BucketsDisjoint(s, c, c);
    PlaceHeads(s, lms, a, heads, j);
    PlaceSlots(s, lms, a, sa);
    PlaceKept(s, lms, a, sa, h);
  }

  /**
   * Writing the `a`-th LMS position at its row keeps the rows already
   * filled, and the rows left at `-1` are still the slots of no placed
   * position.
   */
  lemma PlaceKept(s: string, lms: seq<nat>, a: nat, sa: seq<int>, h: int)
    requires Positioned(s, lms) && a < |lms| && Filled(s, lms, a, sa)
    requires h == Slot(s, lms, a) && Start(s, s[lms[a]]) <= h < |s|
    requires forall b :: 0 <= b < a ==> Slot(s, lms, b) != h
    ensures Filled(s, lms, a + 1, sa[h := lms[a]])
  {
    var sa' := sa[h := lms[a]];
    forall x | 0 <= x < |sa'| && (forall b :: 0 <= b < a + 1 ==> Slot(s, lms, b) != x)
      ensures sa'[x] == -1
    {
      assert Slot(s, lms, a) != x;
    }
  }

  /** Only the head of the placed symbol moves, one row up. */
  lemma PlaceHeads(s: string, lms: seq<nat>, a: nat, heads: seq<int>, j: nat)
    requires Positioned(s, lms) && a < |lms|
    requires j < |Symbols(s)| && Symbols(s)[j] == s[lms[a]]
    requires |heads| == |Symbols(s)|
    requires forall j :: 0 <= j < |heads| ==> heads[j] == End(s, Symbols(s)[j]) - Count(SymbolsAt(s, lms)[..a], Symbols(s)[j])
    ensures forall i :: 0 <= i < |heads| ==> heads[j := heads[j] - 1][i] == End(s, Symbols(s)[i]) - Count(SymbolsAt(s, lms)[..a + 1], Symbols(s)[i])
  {
    var alphabet := Symbols(s);
    var syms := SymbolsAt(s, lms);
    forall i | 0 <= i < |alphabet|
      ensures Count(syms[..a + 1], alphabet[i]) == Count(syms[..a], alphabet[i]) + (if i == j then 1 else 0)
    {
      CountStep(syms, a, alphabet[i]);
      assert i != j ==> alphabet[i] != alphabet[j];
    }
  }

  /** The row of the `a`-th LMS position differs from the rows already filled. */
  lemma PlaceSlots(s: string, lms: seq<nat>, a: nat, sa: seq<int>)
    requires Positioned(s, lms) && a < |lms| && |sa| == |s|
    requires Start(s, s[lms[a]]) <= Slot(s, lms, a)
    requires forall b :: 0 <= b < a ==> Start(s, s[lms[b]]) <= Slot(s, lms, b) < |s| && sa[Slot(s, lms, b)] == lms[b]
    ensures forall b :: 0 <= b < a ==> Slot(s, lms, b) != Slot(s, lms, a)
  {
    var syms := SymbolsAt(s, lms);
    var c := s[lms[a]];
    forall b | 0 <= b < a
      ensures Slot(s, lms, b) != Slot(s, lms, a)
    {
      var d := s[lms[b]];
      assert syms[a] == c && syms[b] == d;
      if d == c {
        CountStep(syms, b, c);
        CountPrefixMonotone(syms, b + 1, a, c);
      } else {
        assert c in s && d in s;
        BucketsDisjoint(s, c, d);
        BucketsDisjoint(s, d, c);
      }
    }
  }

  /** Every row is empty (`-1`) or holds a position of a string of length `n`. */
  predicate Entries(n: nat, sa: seq<int>)
  {
    forall x :: 0 <= x < |sa| ==> sa[x] == -1 || 0 <= sa[x] < n
  }

  /** Filled rows hold `-1` or LMS positions, so positions of `s`. */
  lemma FilledEntries(s: string, lms: seq<nat>, sa: seq<int>)
    requires Positioned(s, lms) && Filled(s, lms, |lms|, sa)
    ensures Entries(|s|, sa)
  {
    forall x | 0 <= x < |sa| && sa[x] != -1
      ensures 0 <= sa[x] < |s|
    {
      var b :| 0 <= b < |lms| && Slot(s, lms, b) == x;
    }
  }

  /** A result of the computation, or the `IndexError` Python would raise. */
  datatype Outcome<T> = Done(value: T) | IndexError

  /** The suffix array being filled and one head per alphabet symbol. */
  datatype Table = Table(rows: seq<int>, heads: seq<int>)

  /** A table for `s`: one row per position, one head per alphabet symbol. */
  predicate Shaped(s: string, alphabet: seq<char>, t: Table)
  {
    |t.rows| == |s| && |t.heads| == |alphabet|
  }

  /** `np.cumsum(counter) - 1`: the back head of every bucket. */
  function BackHeads(counter: seq<nat>): (heads: seq<int>)
    ensures |heads| == |counter|
  {
    seq(|counter|, j requires 0 <= j < |counter| => CumSum(counter)[j] as int - 1)
  }

  /** `np.cumsum(counter) - counter`: the front head of every bucket. */
  function FrontHeads(counter: seq<nat>): (heads: seq<int>)
    ensures |heads| == |counter|
  {
    seq(|counter|, j requires 0 <= j < |counter| => CumSum(counter)[j] as int - counter[j])
  }

  /** A fresh array holding `xs`, as numpy builds one from the `cumsum` of the counts. */
  method NewArray(xs: seq<int>) returns (a: array<int>)
    ensures fresh(a) && a[..] == xs
  {
    a := new int[|xs|](i requires 0 <= i < |xs| => xs[i]);
  }

  /** For the counts of `s`, front heads start at their buckets' first rows and back heads at their last. */
  lemma HeadsAtBounds(s: string)
    ensures forall j :: 0 <= j < |Symbols(s)| ==>
      FrontHeads(Counts(s))[j] == Start(s, Symbols(s)[j]) && BackHeads(Counts(s))[j] == End(s, Symbols(s)[j])
  {
    forall j | 0 <= j < |Symbols(s)|
      ensures FrontHeads(Counts(s))[j] == Start(s, Symbols(s)[j]) && BackHeads(Counts(s))[j] == End(s, Symbols(s)[j])
    {
      BucketBounds(s, j);
    }
  }

  /** Row `h` of numpy indexing: a negative index counts from the back. */
  function Row(n: nat, h: int): (r: nat)
    requires -(n as int) <= h < n
    ensures r < n && (r == h || r == h + n)
  {
    if h < 0 then h + n else h
  }

  /**
   * `SA[heads[i][0]] = v` then `heads[i] += d`, with the mask
   * `i = alphabet == c`.  A symbol missing from the alphabet leaves the mask
   * empty and a head outside `-len(s)..len(s) - 1` is off the array: both
   * raise `IndexError`.  A negative head counts from the back.
   */
  function Put(s: string, alphabet: seq<char>, t: Table, c: char, v: int, d: int): (r: Outcome<Table>)
    requires Shaped(s, alphabet, t)
    ensures r.Done? ==> Shaped(s, alphabet, r.value)
  {
    if c !in alphabet then IndexError
    else
      var j := SymbolIndex(alphabet, c);
      var h := t.heads[j];
      if h < -|s| || h >= |s| then IndexError
      else Done(Table(t.rows[Row(|s|, h) := v], t.heads[j := h + d]))
  }

  /** One pass of the LMS loop of `induce_LMS`: `q` goes to the back head of `s[q]`'s bucket, which moves up. */
  function StepPlace(s: string, alphabet: seq<char>, t: Table, q: nat): (r: Outcome<Table>)
    requires Shaped(s, alphabet, t)
    ensures r.Done? ==> Shaped(s, alphabet, r.value)
  {
    if q >= |s| then IndexError else Put(s, alphabet, t, s[q], q, -1)
  }

  /** The LMS loop of `induce_LMS` from the `a`-th LMS position on. */
  function PlaceFrom(s: string, alphabet: seq<char>, lms: seq<nat>, t: Table, a: nat): (r: Outcome<Table>)
    requires Shaped(s, alphabet, t) && a <= |lms|
    ensures r.Done? ==> Shaped(s, alphabet, r.value)
    decreases |lms| - a
  {
    if a == |lms| then Done(t)
    else
      match StepPlace(s, alphabet, t, lms[a])
      case IndexError => IndexError
      case Done(t') => PlaceFrom(s, alphabet, lms, t', a + 1)
  }

  /**
   * One row `x` of a sweep of `induce_LMS` for the tag `tag`: a position
   * `q > 0` whose predecessor has that tag writes `q - 1` at the head of the
   * predecessor's bucket, which moves down for `L` and up for `S`.  A `q`
   * past the end makes `stypes[q - 1]` raise `IndexError`.
   */
  function StepAt(s: string, alphabet: seq<char>, types: seq<SType>, t: Table, x: nat, tag: SType): (r: Outcome<Table>)
    requires Shaped(s, alphabet, t) && |types| == |s| && x < |s|
    ensures r.Done? ==> Shaped(s, alphabet, r.value)
  {
    var q := t.rows[x];
    if q <= 0 then Done(t)
    else if q - 1 >= |s| then IndexError
    else if types[q - 1] != tag then Done(t)
    else Put(s, alphabet, t, s[q - 1], q - 1, if tag == L then 1 else -1)
  }

  /**
   * A row whose position `q > 0` has a predecessor with the sweep's tag
   * writes `q - 1` at the head `j` of that predecessor's bucket, or raises
   * `IndexError` when the head is off the array.
   */
  lemma StepAtWrites(s: string, alphabet: seq<char>, types: seq<SType>, t: Table, x: nat, tag: SType, j: nat)
    requires Shaped(s, alphabet, t) && |types| == |s| && x < |s|
    requires 0 < t.rows[x] <= |s| && types[t.rows[x] - 1] == tag
    requires s[t.rows[x] - 1] in alphabet && j == SymbolIndex(alphabet, s[t.rows[x] - 1])
    ensures var h := t.heads[j];
      StepAt(s, alphabet, types, t, x, tag)
        == if -|s| <= h < |s| then Done(Table(t.rows[Row(|s|, h) := t.rows[x] - 1], t.heads[j := h + if tag == L then 1 else -1]))
           else IndexError
  {
  }

  /** A row whose position has no predecessor with the sweep's tag leaves the table as it is. */
  lemma StepAtSkips(s: string, alphabet: seq<char>, types: seq<SType>, t: Table, x: nat, tag: SType)
    requires Shaped(s, alphabet, t) && |types| == |s| && x < |s|
    requires t.rows[x] <= 0 || (t.rows[x] <= |s| && types[t.rows[x] - 1] != tag)
    ensures StepAt(s, alphabet, types, t, x, tag) == Done(t)
  {
  }

  /**
   * The L-type sweep of `induce_LMS` from row `x` on, left to right.  Each
   * row is read as the earlier steps left it, so a row written ahead of the
   * scan is read when the scan reaches it.
   */
  function SweepL(s: string, alphabet: seq<char>, types: seq<SType>, t: Table, x: nat): (r: Outcome<Table>)
    requires Shaped(s, alphabet, t) && |types| == |s| && x <= |s|
    ensures r.Done? ==> Shaped(s, alphabet, r.value)
    decreases |s| - x
  {
    if x == |s| then Done(t)
    else
      match StepAt(s, alphabet, types, t, x, L)
      case IndexError => IndexError
      case Done(t') => SweepL(s, alphabet, types, t', x + 1)
  }

  /** The S-type sweep of `induce_LMS` over rows `k - 1` down to `0`, each read as the earlier steps left it. */
  function SweepS(s: string, alphabet: seq<char>, types: seq<SType>, t: Table, k: nat): (r: Outcome<Table>)
    requires Shaped(s, alphabet, t) && |types| == |s| && k <= |s|
    ensures r.Done? ==> Shaped(s, alphabet, r.value)
    decreases k
  {
    if k == 0 then Done(t)
    else
      match StepAt(s, alphabet, types, t, k - 1, S)
      case IndexError => IndexError
      case Done(t') => SweepS(s, alphabet, types, t', k - 1)
  }

  /** A row of the L-type sweep that does not raise hands the rest of the sweep its table. */
  lemma SweepLNext(s: string, alphabet: seq<char>, types: seq<SType>, t: Table, t': Table, x: nat)
    requires Shaped(s, alphabet, t) && Shaped(s, alphabet, t') && |types| == |s| && x < |s|
    requires StepAt(s, alphabet, types, t, x, L) == Done(t')
    ensures SweepL(s, alphabet, types, t, x) == SweepL(s, alphabet, types, t', x + 1)
  {
  }

  /** A row of the S-type sweep that does not raise hands the rest of the sweep its table. */
  lemma SweepSNext(s: string, alphabet: seq<char>, types: seq<SType>, t: Table, t': Table, k: nat)
    requires Shaped(s, alphabet, t) && Shaped(s, alphabet, t') && |types| == |s| && 0 < k <= |s|
    requires StepAt(s, alphabet, types, t, k - 1, S) == Done(t')
    ensures SweepS(s, alphabet, types, t, k) == SweepS(s, alphabet, types, t', k - 1)
  {
  }

  /**
   * `induce_LMS` as a function of its inputs: the LMS loop on a fresh array
   * of `-1` with back heads, the L-type sweep with front heads, then the
   * S-type sweep with back heads again.  The rows of the result are the
   * returned `SA`; its heads are the S-type heads as the last sweep left
   * them.
   */
  function InduceRun(s: string, alphabet: seq<char>, counter: seq<nat>, types: seq<SType>, lms: seq<nat>): (r: Outcome<Table>)
    requires |counter| == |alphabet| && |types| == |s|
    ensures r.Done? ==> Shaped(s, alphabet, r.value)
  {
    match PlaceFrom(s, alphabet, lms, Table(seq(|s|, _ => -1), BackHeads(counter)), 0)
    case IndexError => IndexError
    case Done(placed) =>
      match SweepL(s, alphabet, types, Table(placed.rows, FrontHeads(counter)), 0)
      case IndexError => IndexError
      case Done(swept) => SweepS(s, alphabet, types, Table(swept.rows, BackHeads(counter)), |s|)
  }

  /** A pass of the LMS loop whose head is a row of the array writes there and moves the head up. */
  lemma StepPlaceWrites(s: string, alphabet: seq<char>, t: Table, q: nat, j: nat)
    requires Shaped(s, alphabet, t) && q < |s| && s[q] in alphabet && j == SymbolIndex(alphabet, s[q])
    requires 0 <= t.heads[j] < |s|
    ensures StepPlace(s, alphabet, t, q) == Done(Table(t.rows[t.heads[j] := q], t.heads[j := t.heads[j] - 1]))
  {
  }

  /**
   * From a placement state, the rest of the LMS loop never raises: each LMS
   * position lands at its slot, and every other row keeps `-1`.
   */
  lemma {:induction false} PlaceFromPlaced(s: string, lms: seq<nat>, t: Table, a: nat)
    requires StrictlyIncreasing(lms) && Placed(s, lms, a, t.rows, t.heads)
    ensures PlaceFrom(s, Symbols(s), lms, t, a).Done?
    ensures Filled(s, lms, |lms|, PlaceFrom(s, Symbols(s), lms, t, a).value.rows)
    decreases |lms| - a
  {
    if a < |lms| {
      assert s[lms[a]] in s;
      var j := SymbolIndex(Symbols(s), s[lms[a]]);
      PlaceStep(s, lms, a, t.rows, t.heads, j);
      StepPlaceWrites(s, Symbols(s), t, lms[a], j);
      var t' := Table(t.rows[t.heads[j] := lms[a]], t.heads[j := t.heads[j] - 1]);
      PlaceFromPlaced(s, lms, t', a + 1);
    }
  }

  /**
   * The first loop of `induce_LMS`: every LMS position goes to the back head
   * of its symbol's bucket, and that head moves one row up, so later LMS
   * positions with the same symbol land at lower rows.  The array ends as
   * `PlaceFrom` says: each LMS position at its slot, every other row `-1`.
   */
  method PlaceLms(s: string, alphabet: seq<char>, counter: seq<nat>, lms: seq<nat>, sa: array<int>)
    requires alphabet == Symbols(s) && counter == Counts(s)
    requires StrictlyIncreasing(lms) && Positioned(s, lms)
    requires sa.Length == |s| && forall x :: 0 <= x < |s| ==> sa[x] == -1
    modifies sa
    ensures PlaceFrom(s, alphabet, lms, Table(old(sa[..]), BackHeads(counter)), 0).Done?
    ensures sa[..] == PlaceFrom(s, alphabet, lms, Table(old(sa[..]), BackHeads(counter)), 0).value.rows
    ensures forall a :: 0 <= a < |lms| ==> Start(s, s[lms[a]]) <= Slot(s, lms, a) < |s| && sa[Slot(s, lms, a)] == lms[a]
    ensures forall x :: 0 <= x < |s| && (forall a :: 0 <= a < |lms| ==> Slot(s, lms, a) != x) ==> sa[x] == -1
  {
    var heads := NewArray(BackHeads(counter));
    PlaceStart(s, lms, sa[..], heads[..]);
    ghost var start := Table(sa[..], heads[..]);
    PlaceFromPlaced(s, lms, start, 0);
    ghost var goal := PlaceFrom(s, alphabet, lms, start, 0);
    for a := 0 to |lms|
      invariant PlaceFrom(s, alphabet, lms, Table(sa[..], heads[..]), a) == goal
    {
      ghost var before := Table(sa[..], heads[..]);
      PlaceFromNext(s, alphabet, lms, before, a);
      PlaceOne(s, alphabet, lms, a, sa, heads);
    }
  }

  /** When the LMS loop from `a` on does not raise, its first pass does not, and the rest goes on from there. */
  lemma PlaceFromNext(s: string, alphabet: seq<char>, lms: seq<nat>, t: Table, a: nat)
    requires Shaped(s, alphabet, t) && a < |lms|
    ensures var r := StepPlace(s, alphabet, t, lms[a]);
      PlaceFrom(s, alphabet, lms, t, a).Done? ==> r.Done? && PlaceFrom(s, alphabet, lms, t, a) == PlaceFrom(s, alphabet, lms, r.value, a + 1)
  {
  }

  /**
   * One pass of the loop of `PlaceLms`: the `a`-th LMS position goes to the
   * back head of its bucket, and that head moves one row up.
   */
  method PlaceOne(s: string, alphabet: seq<char>, lms: seq<nat>, a: nat, sa: array<int>, heads: array<int>)
    requires alphabet == Symbols(s) && a < |lms|
    requires sa != heads && sa.Length == |s| && heads.Length == |alphabet|
    requires StepPlace(s, alphabet, Table(sa[..], heads[..]), lms[a]).Done?
    modifies sa, heads
    ensures Done(Table(sa[..], heads[..])) == StepPlace(s, alphabet, Table(old(sa[..]), old(heads[..])), lms[a])
  {
    var n := |s|;
    var q := lms[a];
    var j := SymbolIndex(alphabet, s[q]);
    var h := heads[j];
    var row := if h < 0 then h + n else h;
    WriteHead(sa, heads, row, q, j, -1);
  }

  /** `SA[row] = v` followed by `heads[j] += d`. */
  method WriteHead(sa: array<int>, heads: array<int>, row: nat, v: int, j: nat, d: int)
    requires sa != heads && row < sa.Length && j < heads.Length
    modifies sa, heads
    ensures sa[..] == old(sa[..])[row := v]
    ensures heads[..] == old(heads[..])[j := old(heads[j]) + d]
  {
    sa[row] := v;
    heads[j] := heads[j] + d;
  }

  /** With the sentinel, every other symbol has at least the sentinel below it. */
  lemma SentinelBelow(s: string, i: nat)
    requires Sentinel(s) && i < |s| - 1
    ensures Start(s, s[i]) >= 1
  {
  }

  /**
   * What the L-type sweep keeps: rows hold positions or `-1`, every front
   * head is at or past its bucket's first row, and a sentinel in row 0 stays.
   */
  ghost predicate SweptL(s: string, alphabet: seq<char>, sa: seq<int>, heads: seq<int>, first: int)
  {
    && |sa| == |s| && |heads| == |alphabet|
    && Entries(|s|, sa)
    && (forall j :: 0 <= j < |alphabet| ==> heads[j] >= Start(s, alphabet[j]))
    && (Sentinel(s) && first == |s| - 1 ==> sa[0] == |s| - 1)
  }

  /** One write of the L-type sweep: position `p` goes to the front head of its bucket. */
  lemma SweepLStep(s: string, alphabet: seq<char>, sa: seq<int>, heads: seq<int>, first: int, p: nat, j: nat)
    requires SweptL(s, alphabet, sa, heads, first)
    requires p < |s| - 1 && j < |alphabet| && alphabet[j] == s[p] && heads[j] < |s|
    ensures 0 <= heads[j] < |s|
    ensures SweptL(s, alphabet, sa[heads[j] := p], heads[j := heads[j] + 1], first)
  {
    if Sentinel(s) {
      SentinelBelow(s, p);
    }
    var h := heads[j];
    var sa', heads' := sa[h := p], heads[j := h + 1];
    forall x | 0 <= x < |sa'|
      ensures sa'[x] == -1 || 0 <= sa'[x] < |s|
    {
      if x != h {
        assert sa'[x] == sa[x];
      }
    }
  }

  /** A row of the L-type sweep that does not raise keeps `SweptL`. */
  lemma StepLKeeps(s: string, alphabet: seq<char>, types: seq<SType>, t: Table, rows': seq<int>, heads': seq<int>, first: int, x: nat)
    requires SweptL(s, alphabet, t.rows, t.heads, first) && |types| == |s| && x < |s|
    requires StepAt(s, alphabet, types, t, x, L) == Done(Table(rows', heads'))
    ensures SweptL(s, alphabet, rows', heads', first)
  {
    var q := t.rows[x];
    if q > 0 && q - 1 < |s| && types[q - 1] == L && s[q - 1] in alphabet {
      var j := SymbolIndex(alphabet, s[q - 1]);
      if t.heads[j] < |s| {
        SweepLStep(s, alphabet, t.rows, t.heads, first, q - 1, j);
      }
    }
  }

  /**
   * The L-type sweep keeps `SweptL` to its end: if it does not raise, every
   * row holds `-1` or a position, and a sentinel in row 0 stays there.
   */
  lemma {:induction false} SweepLKeeps(s: string, alphabet: seq<char>, types: seq<SType>, t: Table, first: int, x: nat)
    requires SweptL(s, alphabet, t.rows, t.heads, first) && |types| == |s| && x <= |s|
    ensures var r := SweepL(s, alphabet, types, t, x);
      r.Done? ==> SweptL(s, alphabet, r.value.rows, r.value.heads, first)
    decreases |s| - x
  {
    if x < |s| {
      var r := StepAt(s, alphabet, types, t, x, L);
      if r.Done? {
        StepLKeeps(s, alphabet, types, t, r.value.rows, r.value.heads, first, x);
        SweepLKeeps(s, alphabet, types, r.value, first, x + 1);
      }
    }
  }

  /**
   * One row `x` of the second loop of `induce_LMS`.  `ok` is false exactly
   * when the row raises `IndexError` (a position past the end of `stypes`,
   * or a front head off the array); otherwise the array and the heads are
   * what `StepAt` gives.
   */
  method InduceLRow(s: string, alphabet: seq<char>, types: seq<SType>, sa: array<int>, heads: array<int>, x: nat)
    returns (ok: bool)
    requires alphabet == Symbols(s) && |types| == |s| && sa != heads
    requires x < sa.Length == |s| && heads.Length == |alphabet|
    modifies sa, heads
    ensures (if ok then Done(Table(sa[..], heads[..])) else IndexError)
      == StepAt(s, alphabet, types, Table(old(sa[..]), old(heads[..])), x, L)
  {
    var n := |s|;
    ghost var t := Table(sa[..], heads[..]);
    var q := sa[x];
    if q > n {
      return false;
    }
    if q > 0 && types[q - 1] == L {
      assert s[q - 1] in s;
      var j := SymbolIndex(alphabet, s[q - 1]);
      var h := heads[j];
      assert t.rows[x] == q && q <= n;
      StepAtWrites(s, alphabet, types, t, x, L, j);
      if h < -n || h >= n {
        return false;
      }
      var row := if h < 0 then h + n else h;
      WriteHead(sa, heads, row, q - 1, j, 1);
    } else {
      StepAtSkips(s, alphabet, types, t, x, L);
    }
    return true;
  }

  /**
   * The second loop of `induce_LMS`: scanning the rows left to right, each
   * position `q > 0` whose predecessor is L-type puts `q - 1` at the front
   * head of the predecessor's bucket, and that head moves one row down.
   * The array ends as `SweepL` from the front heads says, and `ok` is false
   * exactly when `SweepL` raises.  Row 0 of the sentinel's bucket is never
   * written.
   */
  method InduceL(s: string, alphabet: seq<char>, counter: seq<nat>, types: seq<SType>, sa: array<int>) returns (ok: bool)
    requires alphabet == Symbols(s) && counter == Counts(s) && |types| == |s|
    requires sa.Length == |s| && Entries(|s|, sa[..])
    modifies sa
    ensures ok == SweepL(s, alphabet, types, Table(old(sa[..]), FrontHeads(counter)), 0).Done?
    ensures ok ==> sa[..] == SweepL(s, alphabet, types, Table(old(sa[..]), FrontHeads(counter)), 0).value.rows
    ensures ok ==> Entries(|s|, sa[..])
    ensures ok && Sentinel(s) && old(sa[0]) == |s| - 1 ==> sa[0] == |s| - 1
  {
    var n := |s|;
    var heads := NewArray(FrontHeads(counter));
    HeadsAtBounds(s);
    ghost var first := if n > 0 then sa[0] else -1;
    ghost var start := Table(sa[..], heads[..]);
    ghost var goal := SweepL(s, alphabet, types, start, 0);
    for x := 0 to n
      invariant SweepL(s, alphabet, types, Table(sa[..], heads[..]), x) == goal
    {
      ghost var before := Table(sa[..], heads[..]);
      ok := InduceLRow(s, alphabet, types, sa, heads, x);
      if !ok {
        return false;
      }
      SweepLNext(s, alphabet, types, before, Table(sa[..], heads[..]), x);
    }
    SweepLKeeps(s, alphabet, types, start, first, 0);
    return true;
  }

  /**
   * What the S-type sweep keeps: rows hold positions or `-1`, every back
   * head is at or before its bucket's last row, and either the sentinel in
   * row 0 stays or bucket `culprit` has a head more than one row above its
   * first row.
   */
  ghost predicate SweptS(s: string, alphabet: seq<char>, sa: seq<int>, heads: seq<int>, first: int, culprit: int)
  {
    && |sa| == |s| && |heads| == |alphabet|
    && Entries(|s|, sa)
    && (forall j :: 0 <= j < |alphabet| ==> heads[j] <= End(s, alphabet[j]))
    && -1 <= culprit < |alphabet|
    && (culprit == -1 ==> (Sentinel(s) && first == |s| - 1 ==> sa[0] == |s| - 1))
    && (culprit != -1 ==> heads[culprit] < Start(s, alphabet[culprit]) - 1)
  }

  /**
   * What holds when the S-type sweep is over: rows hold positions or `-1`,
   * back heads are at or before their buckets' last rows, and if no head
   * ended more than one row above its bucket's first row, a sentinel in
   * row 0 stays.
   */
  ghost predicate SweptSDone(s: string, alphabet: seq<char>, t: Table, first: int)
  {
    && Shaped(s, alphabet, t)
    && Entries(|s|, t.rows)
    && (forall j :: 0 <= j < |alphabet| ==> t.heads[j] <= End(s, alphabet[j]))
    && (Sentinel(s) && first == |s| - 1 && (forall j :: 0 <= j < |alphabet| ==> t.heads[j] >= Start(s, alphabet[j]) - 1)
        ==> t.rows[0] == |s| - 1)
  }

  /**
   * One write of the S-type sweep: position `p` goes to the back head of its
   * bucket; the first bucket whose head writes above its first row becomes
   * the culprit.
   */
  lemma SweepSStep(s: string, alphabet: seq<char>, sa: seq<int>, heads: seq<int>, first: int, culprit: int, p: nat, j: nat)
    requires SweptS(s, alphabet, sa, heads, first, culprit)
    requires p < |s| - 1 && j < |alphabet| && alphabet[j] == s[p] && heads[j] >= -|s|
    ensures heads[j] < |s|
    ensures var culprit' := if heads[j] < Start(s, alphabet[j]) && culprit == -1 then j else culprit;
      SweptS(s, alphabet, sa[Row(|s|, heads[j]) := p], heads[j := heads[j] - 1], first, culprit')
  {
    if Sentinel(s) {
      SentinelBelow(s, p);
    }
    assert s[p] in s;
    LessCountBound(s, s[p]);
    var h := heads[j];
    var row := Row(|s|, h);
    var sa', heads' := sa[row := p], heads[j := h - 1];
    forall x | 0 <= x < |sa'|
      ensures sa'[x] == -1 || 0 <= sa'[x] < |s|
    {
      if x != row {
        assert sa'[x] == sa[x];
      }
    }
  }

  /** A row of the S-type sweep that does not raise keeps `SweptS`, with the culprit it names. */
  lemma StepSKeeps(s: string, alphabet: seq<char>, types: seq<SType>, t: Table, rows': seq<int>, heads': seq<int>,
                   first: int, culprit: int, x: nat)
    returns (culprit': int)
    requires SweptS(s, alphabet, t.rows, t.heads, first, culprit) && |types| == |s| && x < |s|
    requires StepAt(s, alphabet, types, t, x, S) == Done(Table(rows', heads'))
    ensures SweptS(s, alphabet, rows', heads', first, culprit')
  {
    culprit' := culprit;
    var q := t.rows[x];
    if q > 0 && q - 1 < |s| && types[q - 1] == S && s[q - 1] in alphabet {
      var j := SymbolIndex(alphabet, s[q - 1]);
      var h := t.heads[j];
      if h >= -|s| {
        SweepSStep(s, alphabet, t.rows, t.heads, first, culprit, q - 1, j);
        culprit' := if h < Start(s, alphabet[j]) && culprit == -1 then j else culprit;
      }
    }
  }

  /**
   * The S-type sweep keeps `SweptS` to its end: if it does not raise, every
   * row holds `-1` or a position, no back head is below its bucket, and a
   * sentinel in row 0 stays unless some head ended more than one row above
   * its bucket's first row.
   */
  lemma {:induction false} SweepSKeeps(s: string, alphabet: seq<char>, types: seq<SType>, t: Table, first: int, culprit: int, k: nat)
    requires SweptS(s, alphabet, t.rows, t.heads, first, culprit) && |types| == |s| && k <= |s|
    ensures var r := SweepS(s, alphabet, types, t, k);
      r.Done? ==> SweptSDone(s, alphabet, r.value, first)
    decreases k
  {
    if k > 0 {
      var r := StepAt(s, alphabet, types, t, k - 1, S);
      if r.Done? {
        var culprit' := StepSKeeps(s, alphabet, types, t, r.value.rows, r.value.heads, first, culprit, k - 1);
        SweepSKeeps(s, alphabet, types, r.value, first, culprit', k - 1);
      }
    }
  }

  /**
   * One row `k - 1` of the third loop of `induce_LMS`.  `ok` is false
   * exactly when the row raises `IndexError` (a position past the end of
   * `stypes`, or a back head off the array); otherwise the array and the
   * heads are what `StepAt` gives.
   */
  method InduceSRow(s: string, alphabet: seq<char>, types: seq<SType>, sa: array<int>, heads: array<int>, k: nat)
    returns (ok: bool)
    requires alphabet == Symbols(s) && |types| == |s| && sa != heads
    requires 0 < k <= sa.Length == |s| && heads.Length == |alphabet|
    modifies sa, heads
    ensures (if ok then Done(Table(sa[..], heads[..])) else IndexError)
      == StepAt(s, alphabet, types, Table(old(sa[..]), old(heads[..])), k - 1, S)
  {
    var n := |s|;
    var x := k - 1;
    ghost var t := Table(sa[..], heads[..]);
    var q := sa[x];
    if q > n {
      return false;
    }
    if q > 0 && types[q - 1] == S {
      assert s[q - 1] in s;
      var j := SymbolIndex(alphabet, s[q - 1]);
      var h := heads[j];
      assert t.rows[x] == q && q <= n;
      StepAtWrites(s, alphabet, types, t, x, S, j);
      if h < -n || h >= n {
        return false;
      }
      var row := if h < 0 then h + n else h;
      WriteHead(sa, heads, row, q - 1, j, -1);
    } else {
      StepAtSkips(s, alphabet, types, t, x, S);
    }
    return true;
  }

  /**
   * The third loop of `induce_LMS`: scanning the rows right to left, each
   * position `q > 0` whose predecessor is S-type puts `q - 1` at the back
   * head of the predecessor's bucket, and that head moves one row up.  A
   * head that has left the front of the array indexes from the back, as
   * numpy does, until it passes `-len(s)` and raises `IndexError`.  The
   * array ends as `SweepS` from the back heads says, `finalHeads` being its
   * heads, and `ok` is false exactly when `SweepS` raises.
   */
  method InduceS(s: string, alphabet: seq<char>, counter: seq<nat>, types: seq<SType>, sa: array<int>)
    returns (ok: bool, ghost finalHeads: seq<int>)
    requires alphabet == Symbols(s) && counter == Counts(s) && |types| == |s|
    requires sa.Length == |s| && Entries(|s|, sa[..])
    modifies sa
    ensures (if ok then Done(Table(sa[..], finalHeads)) else IndexError)
      == SweepS(s, alphabet, types, Table(old(sa[..]), BackHeads(counter)), |s|)
    ensures ok ==> Entries(|s|, sa[..]) && |finalHeads| == |alphabet|
    ensures ok ==> forall j :: 0 <= j < |alphabet| ==> finalHeads[j] <= End(s, alphabet[j])
    ensures ok && Sentinel(s) && old(sa[0]) == |s| - 1 && (forall j :: 0 <= j < |alphabet| ==> finalHeads[j] >= Start(s, alphabet[j]) - 1)
      ==> sa[0] == |s| - 1
  {
    var n := |s|;
    var heads := NewArray(BackHeads(counter));
    HeadsAtBounds(s);
    ghost var first := if n > 0 then sa[0] else -1;
    ghost var start := Table(sa[..], heads[..]);
    ghost var goal := SweepS(s, alphabet, types, start, n);
    var k: nat := n;
    while k > 0
      invariant k <= n
      invariant SweepS(s, alphabet, types, Table(sa[..], heads[..]), k) == goal
    {
      ghost var before := Table(sa[..], heads[..]);
      ok := InduceSRow(s, alphabet, types, sa, heads, k);
      if !ok {
        return false, heads[..];
      }
      SweepSNext(s, alphabet, types, before, Table(sa[..], heads[..]), k);
      k := k - 1;
    }
    SweepSKeeps(s, alphabet, types, start, first, -1, n);
    return true, heads[..];
  }

  /** The sentinel's bucket is row 0 alone. */
  lemma SentinelBucket(s: string)
    requires Sentinel(s)
    ensures Start(s, s[|s| - 1]) == 0 && End(s, s[|s| - 1]) == 0
  {
    var n := |s|;
    var c := s[n - 1];
    LessNone(s, c);
    assert c !in s[..n - 1];
    CountBounds(s[..n - 1], c);
  }

  /**
   * With the sentinel, LMS placement puts the last position `n - 1` in row 0:
   * it is an LMS position, and its bucket has that one row.
   */
  lemma SentinelSlot(s: string, lms: seq<nat>, sa: seq<int>)
    requires Sentinel(s) && |s| >= 2 && LmsList(s, lms) && Positioned(s, lms) && |sa| == |s|
    requires forall a :: 0 <= a < |lms| ==> Start(s, s[lms[a]]) <= Slot(s, lms, a) < |s| && sa[Slot(s, lms, a)] == lms[a]
    ensures sa[0] == |s| - 1
  {
    SentinelLms(s);
    SentinelBucket(s);
    assert |s| - 1 in lms;
    var a :| 0 <= a < |lms| && lms[a] == |s| - 1;
    assert Slot(s, lms, a) <= End(s, s[|s| - 1]);
  }

  /** Every LMS position is a position of `s`. */
  lemma LmsPositioned(s: string, lms: seq<nat>)
    requires LmsList(s, lms)
    ensures Positioned(s, lms)
  {
    forall a | 0 <= a < |lms|
      ensures lms[a] < |s|
    {
      assert IsLms(s, lms[a]);
    }
  }

  /**
   * What `induce_LMS` guarantees on `s`'s own alphabet, counts, tags and LMS
   * list: the LMS loop never raises; if the sweeps do not raise, every row
   * holds `-1` or a position, no back head ends below its bucket, and with
   * the sentinel row 0 holds `n - 1` unless some S-type head ended more than
   * one row above its bucket's first row.
   */
  lemma InduceRunFacts(s: string, lms: seq<nat>)
    requires LmsList(s, lms)
    ensures PlaceFrom(s, Symbols(s), lms, Table(seq(|s|, _ => -1), BackHeads(Counts(s))), 0).Done?
    ensures var r := InduceRun(s, Symbols(s), Counts(s), Types(s), lms);
      r.Done? ==> SweptSDone(s, Symbols(s), r.value, if Sentinel(s) && |s| >= 2 then |s| - 1 else -1)
  {
    var alphabet, counter, types := Symbols(s), Counts(s), Types(s);
    LmsPositioned(s, lms);
    HeadsAtBounds(s);
    var t0 := Table(seq(|s|, _ => -1), BackHeads(counter));
    PlaceStart(s, lms, t0.rows, t0.heads);
    PlaceFromPlaced(s, lms, t0, 0);
    var placed := PlaceFrom(s, alphabet, lms, t0, 0).value;
    FilledEntries(s, lms, placed.rows);
    var first := if Sentinel(s) && |s| >= 2 then |s| - 1 else -1;
    if Sentinel(s) && |s| >= 2 {
      SentinelSlot(s, lms, placed.rows);
    }
    var t1 := Table(placed.rows, FrontHeads(counter));
    SweepLKeeps(s, alphabet, types, t1, first, 0);
    var r1 := SweepL(s, alphabet, types, t1, 0);
    if r1.Done? {
      var t2 := Table(r1.value.rows, BackHeads(counter));
      SweepSKeeps(s, alphabet, types, t2, first, -1, |s|);
    }
  }

  /**
   * `induce_LMS`: a fresh array of `-1`, the LMS positions at their bucket
   * ends, then the L-type and the S-type sweeps.  The result is `InduceRun`'s
   * rows, with `finalHeads` its heads, and `IndexError` exactly when
   * `InduceRun` raises; every row of a result is `-1` or a position.  With the
   * sentinel, the result starts with `n - 1` unless some S-type head ended
   * more than one row above its bucket's first row.
   */
  method InduceLms(s: string, alphabet: seq<char>, counter: seq<nat>, types: seq<SType>, lms: seq<nat>)
    returns (r: Outcome<seq<int>>, ghost finalHeads: seq<int>)
    requires alphabet == Symbols(s) && counter == Counts(s) && types == Types(s) && LmsList(s, lms)
    ensures (if r.Done? then Done(Table(r.value, finalHeads)) else IndexError)
      == InduceRun(s, alphabet, counter, types, lms)
    ensures r.Done? ==> |r.value| == |s| && Entries(|s|, r.value)
    ensures r.Done? ==> |finalHeads| == |alphabet| && forall j :: 0 <= j < |alphabet| ==> finalHeads[j] <= End(s, alphabet[j])
    ensures r.Done? && Sentinel(s) && |s| >= 2 && (forall j :: 0 <= j < |alphabet| ==> finalHeads[j] >= Start(s, alphabet[j]) - 1)
      ==> r.value[0] == |s| - 1
  {
    var sa := new int[|s|](_ => -1);
    assert sa[..] == seq(|s|, _ => -1);
    LmsPositioned(s, lms);
    PlaceLms(s, alphabet, counter, lms, sa);
    FilledEntries(s, lms, sa[..]);
    if Sentinel(s) && |s| >= 2 {
      SentinelSlot(s, lms, sa[..]);
    }
    var ok := InduceL(s, alphabet, counter, types, sa);
    if !ok {
      return IndexError, [];
    }
    ok, finalHeads := InduceS(s, alphabet, counter, types, sa);
    if !ok {
      return IndexError, finalHeads;
    }
    r := Done(sa[..]);
  }

  /** An object built by `isbwt(s)`: the input and what `__init__` derives from it. */
  datatype Isbwt = Isbwt(s: string, alphabet: seq<char>, counter: seq<nat>, stypes: seq<SType>, lms: seq<nat>, sa: seq<int>)

  /** The fields are the ones `__init__` computes from `s`. */
  ghost predicate Valid(b: Isbwt)
  {
    && b.alphabet == Symbols(b.s) && b.counter == Counts(b.s)
    && b.stypes == Types(b.s) && b.lms == LmsFrom(b.s, 0)
    && InduceRun(b.s, b.alphabet, b.counter, b.stypes, b.lms).Done?
    && b.sa == InduceRun(b.s, b.alphabet, b.counter, b.stypes, b.lms).value.rows
  }

  /** A valid object's LMS list is ascending and exact, and its suffix array has a `-1` or a position in every row. */
  lemma ValidRows(b: Isbwt)
    requires Valid(b)
    ensures LmsList(b.s, b.lms)
    ensures |b.sa| == |b.s| && Entries(|b.s|, b.sa)
  {
    LmsFromList(b.s, 0);
    InduceRunFacts(b.s, b.lms);
  }

  /**
   * `isbwt(s)`: the sorted alphabet with its counts (`np.unique`), the suffix
   * types and LMS positions, then `induce_LMS`.  The empty string has no last
   * tag to write and raises `IndexError`; otherwise `IndexError` comes
   * exactly when `InduceRun` raises.
   */
  method Create(s: string) returns (r: Outcome<Isbwt>)
    ensures s == [] ==> r == IndexError
    ensures s != [] ==> (r.Done? <==> InduceRun(s, Symbols(s), Counts(s), Types(s), LmsFrom(s, 0)).Done?)
    ensures r.Done? ==> r.value.s == s && Valid(r.value)
  {
    if s == [] {
      return IndexError;
    }
    var alphabet, counter := Symbols(s), Counts(s);
    var types, lms := SuffixTypes(s);
    var sa, _ := InduceLms(s, alphabet, counter, types, lms);
    if sa == IndexError {
      return IndexError;
    }
    r := Done(Isbwt(s, alphabet, counter, types, lms, sa.value));
  }
}
