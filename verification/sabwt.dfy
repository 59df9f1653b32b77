/**
 * The suffix-array Burrows-Wheeler transform of sabwt.py: sort the suffix
 * start positions, read the symbol cyclically before each sorted suffix, and
 * invert by following the LF-mapping from the row of the sentinel suffix.
 * The forward expressions also appear at module level in mapping.py:7-13.
 */
module SuffixArrayBwt {
  import opened Lex
  import opened Seqs
  import opened Sorting
  import opened Counting
  import opened Ranks

  /** The sort key `lambda i: s[i:]`; Python's slice is empty past the end. */
  function Suffix(s: string): nat -> string
  {
    (i: nat) => if i <= |s| then s[i..] else []
  }

  /**
   * `calc_suffix_array`: the start positions ordered by their suffixes.  All
   * suffixes have different lengths, so the order is strict.
   */
  function CalcSuffixArray(s: string): (sa: seq<nat>)
    ensures IsPermutation(sa, |s|) && |sa| == |s|
    ensures forall k :: 0 <= k < |sa| ==> sa[k] < |s|
    ensures forall a, b {:trigger LexLt(s[sa[a]..], s[sa[b]..])} :: 0 <= a < b < |sa| ==> LexLt(s[sa[a]..], s[sa[b]..])
  {
    SuffixArrayFacts(s);
    SortBy<nat>(Range(|s|), Suffix(s))
  }

  lemma SuffixArrayFacts(s: string)
    ensures var sa := SortBy<nat>(Range(|s|), Suffix(s));
      && IsPermutation(sa, |s|) && |sa| == |s|
      && (forall k :: 0 <= k < |sa| ==> sa[k] < |s|)
      && (forall a, b {:trigger LexLt(s[sa[a]..], s[sa[b]..])} :: 0 <= a < b < |sa| ==> LexLt(s[sa[a]..], s[sa[b]..]))
  {
    var sa := SortBy<nat>(Range(|s|), Suffix(s));
    PermutationFacts(sa, |s|);
    SortBySorted<nat>(Range(|s|), Suffix(s));
    forall a, b | 0 <= a < b < |sa|
      ensures LexLt(s[sa[a]..], s[sa[b]..])
    {
      assert Suffix(s)(sa[a]) == s[sa[a]..];
      assert Suffix(s)(sa[b]) == s[sa[b]..];
      assert |s[sa[a]..]| != |s[sa[b]..]|;
    }
  }

  /** The position cyclically before `i` in a string of length `n`. */
  function Prev(n: nat, i: nat): nat
    requires i < n
  {
    if i == 0 then n - 1 else i - 1
  }

  /** `last_index`: `(i + n - 1) % n` for every entry `i` of the suffix array. */
  function LastIndex(n: nat, sa: seq<nat>): (r: seq<nat>)
    requires n > 0 || sa == []
    ensures |r| == |sa|
    ensures forall k :: 0 <= k < |sa| ==> r[k] < n
    ensures forall k :: 0 <= k < |sa| && sa[k] < n ==> r[k] == Prev(n, sa[k])
  {
    seq(|sa|, k requires 0 <= k < |sa| => Wrap(n, sa[k]))
  }

  /** The lambda of `last_index`: `(i + n - 1) % n`, which is `i - 1` modulo `n`. */
  function Wrap(n: nat, i: nat): (r: nat)
    requires n > 0
    ensures r < n
    ensures i < n ==> r == Prev(n, i)
  {
    PrevMod(n, i);
    (i + n - 1) % n
  }

  lemma PrevMod(n: nat, i: nat)
    requires n > 0
    ensures (i + n - 1) % n < n
    ensures i < n ==> (i + n - 1) % n == Prev(n, i)
  {
    if i == 0 {
      assert (n - 1) % n == n - 1;
    } else if i < n {
      assert i + n - 1 == 1 * n + (i - 1);
    }
  }

  /** Stepping back cyclically permutes the positions. */
  lemma LastIndexPermutation(n: nat, sa: seq<nat>)
    requires IsPermutation(sa, n)
    ensures n > 0 || sa == []
    ensures IsPermutation(LastIndex(n, sa), n)
  {
    PermutationFacts(sa, n);
    var r := LastIndex(n, sa);
    forall x | 0 <= x < n
      ensures x in r
    {
      var y := if x == n - 1 then 0 else x + 1;
      assert y in sa;
      var k :| 0 <= k < |sa| && sa[k] == y;
      assert r[k] == x;
    }
    DistinctCoverPermutation(r, n);
  }

  /** `transform`: the symbol cyclically before each sorted suffix (the last column). */
  function Transform(s: string, sa: seq<nat>): (t: string)
    requires |s| > 0 || sa == []
    ensures |t| == |sa|
    ensures forall k :: 0 <= k < |sa| && sa[k] < |s| ==> t[k] == s[Prev(|s|, sa[k])]
  {
    var li := LastIndex(|s|, sa);
    seq(|sa|, k requires 0 <= k < |sa| => s[li[k]])
  }

  /** The transform of a permutation rearranges the symbols of `s`. */
  lemma TransformPermutes(s: string, sa: seq<nat>)
    requires IsPermutation(sa, |s|)
    ensures |s| > 0 || sa == []
    ensures multiset(Transform(s, sa)) == multiset(s)
  {
    LastIndexPermutation(|s|, sa);
    var li := LastIndex(|s|, sa);
    var f := (i: nat) => if i < |s| then s[i] else '$';
    MapSeqMultiset(li, Range(|s|), f);
    assert MapSeq(li, f) == Transform(s, sa);
    assert MapSeq(Range(|s|), f) == s;
  }

  /** The forward transform of `s`, as `__init__` computes it. */
  function Bwt(s: string): (t: string)
    ensures |t| == |s|
    ensures multiset(t) == multiset(s)
  {
    TransformPermutes(s, CalcSuffixArray(s));
    Transform(s, CalcSuffixArray(s))
  }

  /** `s` ends in the only `'$'`, and every other symbol sorts above it. */
  predicate Sentinel(s: string)
  {
    |s| > 0 && s[|s| - 1] == '$' && forall i :: 0 <= i < |s| - 1 ==> '$' < s[i]
  }

  /** `sa` lists every position of `u` once, in strictly ascending suffix order. */
  ghost predicate SuffixOrder(u: string, sa: seq<nat>)
  {
    && |sa| == |u|
    && (forall k :: 0 <= k < |sa| ==> sa[k] < |u|)
    && Distinct(sa)
    && (forall x :: 0 <= x < |u| ==> x in sa)
    && (forall a, b {:trigger LexLt(u[sa[a]..], u[sa[b]..])} :: 0 <= a < b < |sa| ==> LexLt(u[sa[a]..], u[sa[b]..]))
  }

  /** Row `k` of `t` holds the symbol cyclically before the suffix of row `k`. */
  ghost predicate LastColumn(u: string, sa: seq<nat>, t: string)
  {
    && |t| == |sa|
    && multiset(t) == multiset(u)
    && forall k :: 0 <= k < |sa| ==> sa[k] < |u| && t[k] == u[Prev(|u|, sa[k])]
  }

  lemma BwtFacts(u: string)
    ensures SuffixOrder(u, CalcSuffixArray(u))
    ensures LastColumn(u, CalcSuffixArray(u), Bwt(u))
  {
    PermutationFacts(CalcSuffixArray(u), |u|);
  }

  /** Positions whose suffix sorts strictly below the suffix at `q`. */
  ghost function Smaller(u: string, q: nat): set<int>
    requires q <= |u|
  {
    set p | 0 <= p < |u| && LexLt(u[p..], u[q..])
  }

  /** The suffix in row `m` of a suffix array has exactly `m` smaller suffixes. */
  lemma RowRank(u: string, sa: seq<nat>, m: nat)
    requires SuffixOrder(u, sa) && m < |u|
    ensures |Smaller(u, sa[m])| == m
  {
    var rows := Elems(Range(m));
    var f := (j: nat) => if j < |sa| then sa[j] as int else 0;
    forall p | p in Smaller(u, sa[m])
      ensures p in Image(rows, f)
    {
      assert p in sa;
      var j :| 0 <= j < |sa| && sa[j] == p;
      if j > m {
        assert LexLt(u[sa[m]..], u[sa[j]..]);
        LexLeAntisymmetric(u[sa[m]..], u[p..]);
      }
      assert j != m;
      assert Range(m)[j] == j;
      assert f(j) == p;
    }
    forall p | p in Image(rows, f)
      ensures p in Smaller(u, sa[m])
    {
      var j :| j in rows && p == f(j);
    }
    assert Smaller(u, sa[m]) == Image(rows, f);
    CardImage(rows, f);
    CardRange(m);
  }

  /** A suffix that does not start at the end starts with its first symbol. */
  lemma SuffixCons(u: string, p: nat)
    requires p < |u|
    ensures u[p..] == [u[p]] + u[p + 1..]
  {
  }

  /** Positions holding `c` whose following suffix sorts below the suffix at `i`. */
  ghost function SmallerAfter(u: string, c: char, i: nat): set<int>
    requires i <= |u|
  {
    set p | 0 <= p < |u| && u[p] == c && LexLt(u[p + 1..], u[i..])
  }

  /**
   * The suffixes below `c + u[i..]` are those starting with a symbol below
   * `c`, and those starting with `c` whose rest is below `u[i..]`.
   */
  lemma SmallerSplit(u: string, i: nat)
    requires 0 < i <= |u|
    ensures Smaller(u, i - 1) == PositionsBelow(u, |u|, u[i - 1]) + SmallerAfter(u, u[i - 1], i)
  {
    var c := u[i - 1];
    SuffixCons(u, i - 1);
    forall p | 0 <= p < |u|
      ensures LexLt(u[p..], u[i - 1..]) <==> u[p] < c || (u[p] == c && LexLt(u[p + 1..], u[i..]))
    {
      SuffixCons(u, p);
      LexLtCons(u[p], u[p + 1..], c, u[i..]);
    }
  }

  /** Rows above row `k` holding `c` in the last column, whose suffixes are preceded by `c`. */
  lemma RowsOfSymbol(u: string, sa: seq<nat>, t: string, k: nat, c: char)
    requires Sentinel(u) && SuffixOrder(u, sa) && LastColumn(u, sa, t)
    requires k <= |u| && c != '$'
    ensures forall j :: j in Positions(t, k, c) ==> sa[j] > 0 && u[sa[j] - 1] == c
  {
    forall j | j in Positions(t, k, c)
      ensures sa[j] > 0 && u[sa[j] - 1] == c
    {
      assert t[j] == u[Prev(|u|, sa[j])];
    }
  }

  /** Shifts a row to the position just before its suffix. */
  function Back(sa: seq<nat>): int -> int
  {
    (j: int) => if 0 <= j < |sa| && sa[j] > 0 then sa[j] - 1 else 0
  }

  /** Every suffix `c + w` with `w` below row `k` is reached from a row above `k` ending in `c`. */
  lemma AfterInImage(u: string, sa: seq<nat>, t: string, k: nat)
    requires Sentinel(u) && SuffixOrder(u, sa) && LastColumn(u, sa, t)
    requires k < |u| && sa[k] > 0
    ensures SmallerAfter(u, u[sa[k] - 1], sa[k]) <= Image(Positions(t, k, u[sa[k] - 1]), Back(sa))
  {
    var c := u[sa[k] - 1];
    forall p | p in SmallerAfter(u, c, sa[k])
      ensures p in Image(Positions(t, k, c), Back(sa))
    {
      var m := AfterRow(u, sa, t, k, p);
    }
  }

  /** The row, above `k`, of the suffix that follows a position `p` of `SmallerAfter`. */
  lemma AfterRow(u: string, sa: seq<nat>, t: string, k: nat, p: int) returns (m: nat)
    requires Sentinel(u) && SuffixOrder(u, sa) && LastColumn(u, sa, t)
    requires k < |u| && sa[k] > 0
    requires p in SmallerAfter(u, u[sa[k] - 1], sa[k])
    ensures m in Positions(t, k, u[sa[k] - 1]) && Back(sa)(m) == p
  {
    var i := sa[k];
    NotLast(u, i - 1, p);
    m := RowOf(u, sa, p + 1);
    RowAbove(u, sa, k, m);
    assert t[m] == u[Prev(|u|, sa[m])];
  }

  /** A position holding the same symbol as a non-final position is not final. */
  lemma NotLast(u: string, j: nat, p: int)
    requires Sentinel(u) && j < |u| - 1 && 0 <= p < |u| && u[p] == u[j]
    ensures p < |u| - 1
  {
  }

  /** The row of the suffix array that holds position `x`. */
  lemma RowOf(u: string, sa: seq<nat>, x: nat) returns (m: nat)
    requires |sa| == |u| && x < |u| && (forall y :: 0 <= y < |u| ==> y in sa)
    ensures m < |sa| && sa[m] == x
  {
    assert x in sa;
    m :| 0 <= m < |sa| && sa[m] == x;
  }

  /** A suffix that sorts below the suffix of row `k` lies in a row above `k`. */
  lemma RowAbove(u: string, sa: seq<nat>, k: nat, m: nat)
    requires SuffixOrder(u, sa) && k < |sa| && m < |sa|
    requires LexLt(u[sa[m]..], u[sa[k]..])
    ensures m < k
  {
    if m > k {
      assert LexLt(u[sa[k]..], u[sa[m]..]);
      LexLeAntisymmetric(u[sa[k]..], u[sa[m]..]);
    }
  }

  /** Every row above `k` ending in `c` comes from a suffix `c + w` with `w` below row `k`. */
  lemma ImageInAfter(u: string, sa: seq<nat>, t: string, k: nat)
    requires Sentinel(u) && SuffixOrder(u, sa) && LastColumn(u, sa, t)
    requires k < |u| && sa[k] > 0
    ensures Image(Positions(t, k, u[sa[k] - 1]), Back(sa)) <= SmallerAfter(u, u[sa[k] - 1], sa[k])
  {
    var i := sa[k];
    var c := u[i - 1];
    RowsOfSymbol(u, sa, t, k, c);
    forall p | p in Image(Positions(t, k, c), Back(sa))
      ensures p in SmallerAfter(u, c, i)
    {
      var j :| j in Positions(t, k, c) && p == Back(sa)(j);
      assert 0 <= j < k && sa[j] > 0 && u[sa[j] - 1] == c;
      assert p + 1 == sa[j];
      assert LexLt(u[sa[j]..], u[i..]);
    }
  }

  /**
   * The rows above row `k` whose last symbol is `c` are exactly the rows of
   * the suffixes `c + w` with `w` sorting below the suffix of row `k`.
   */
  lemma EqualPart(u: string, sa: seq<nat>, t: string, k: nat)
    requires Sentinel(u) && SuffixOrder(u, sa) && LastColumn(u, sa, t)
    requires k < |u| && sa[k] > 0
    ensures |SmallerAfter(u, u[sa[k] - 1], sa[k])| == Count(t[..k], u[sa[k] - 1])
  {
    var c := u[sa[k] - 1];
    var rows := Positions(t, k, c);
    AfterInImage(u, sa, t, k);
    ImageInAfter(u, sa, t, k);
    RowsOfSymbol(u, sa, t, k, c);
    forall x, y | x in rows && y in rows && Back(sa)(x) == Back(sa)(y)
      ensures x == y
    {
    }
    assert SmallerAfter(u, c, sa[k]) == Image(rows, Back(sa));
    CardImage(rows, Back(sa));
    CountAsSet(t, k, c);
  }

  /**
   * The LF-mapping counts the suffixes below the one starting one position
   * earlier: `alpha[t[k]] + count_table[k]` is its rank.
   */
  lemma LfCount(u: string, sa: seq<nat>, t: string, k: nat)
    requires Sentinel(u) && SuffixOrder(u, sa) && LastColumn(u, sa, t)
    requires k < |u| && sa[k] > 0
    ensures |Smaller(u, sa[k] - 1)| == Lf(t, k)
  {
    var i := sa[k];
    assert t[k] == u[i - 1];
    EqualPart(u, sa, t, k);
    SmallerCard(u, t, i);
  }

  /** The suffixes below `c + u[i..]`: the symbols below `c`, then the suffixes `c + w` with `w` below `u[i..]`. */
  lemma SmallerCard(u: string, t: string, i: nat)
    requires 0 < i <= |u| && multiset(t) == multiset(u)
    ensures |Smaller(u, i - 1)| == Less(t, u[i - 1]) + |SmallerAfter(u, u[i - 1], i)|
  {
    var n := |u|;
    var c := u[i - 1];
    SmallerSplit(u, i);
    assert PositionsBelow(u, n, c) * SmallerAfter(u, c, i) == {};
    LessAsSet(u, n, c);
    assert u[..n] == u;
    CountLessPermutation(t, u, c);
  }

  /** The row of the whole string reads the sentinel, which has no smaller symbol nor earlier copy. */
  lemma LfZero(u: string, sa: seq<nat>, t: string, k: nat)
    requires Sentinel(u) && SuffixOrder(u, sa) && LastColumn(u, sa, t)
    requires k < |u| && sa[k] == 0
    ensures Lf(t, k) == 0
  {
    assert t[k] == '$';
    forall p | 0 <= p < |t|
      ensures '$' <= t[p]
    {
      assert t[p] in multiset(u);
    }
    LessNone(t, '$');
    forall j | 0 <= j < k
      ensures t[j] != '$'
    {
      assert sa[j] != sa[k];
      assert t[j] == u[Prev(|u|, sa[j])];
    }
    CountAsSet(t, k, '$');
    assert Positions(t, k, '$') == {};
  }

  /** No suffix sorts below the sentinel suffix `"$"`. */
  lemma SentinelSmallest(u: string)
    requires Sentinel(u)
    ensures Smaller(u, |u| - 1) == {}
  {
    var n := |u|;
    forall p | 0 <= p < n
      ensures !LexLt(u[p..], u[n - 1..])
    {
      SuffixCons(u, p);
      assert u[n - 1..] == ['$'] + [];
      LexLtCons(u[p], u[p + 1..], '$', []);
    }
  }

  lemma LfStep(u: string, sa: seq<nat>, t: string, k: nat)
    requires Sentinel(u) && SuffixOrder(u, sa) && LastColumn(u, sa, t)
    requires k < |u|
    ensures Lf(t, k) < |u| && sa[Lf(t, k)] == Prev(|u|, sa[k])
  {
    var n := |u|;
    LfPermutation(t);
    var q := Prev(n, sa[k]);
    assert q in sa;
    var m :| 0 <= m < n && sa[m] == q;
    RowRank(u, sa, m);
    if sa[k] > 0 {
      LfCount(u, sa, t, k);
    } else {
      LfZero(u, sa, t, k);
      SentinelSmallest(u);
    }
  }

  /**
   * The LF-mapping moves from the row of the suffix at `i` to the row of the
   * suffix at `i - 1`, wrapping from the whole string to the sentinel suffix.
   */
  lemma LfRow(u: string, k: nat)
    requires Sentinel(u) && k < |u|
    ensures Lf(Bwt(u), k) < |u|
    ensures CalcSuffixArray(u)[Lf(Bwt(u), k)] == Prev(|u|, CalcSuffixArray(u)[k])
  {
    BwtFacts(u);
    LfStep(u, CalcSuffixArray(u), Bwt(u), k);
  }

  /** The suffix array of a string ending in the sentinel starts with the sentinel suffix. */
  lemma SentinelFirst(u: string)
    requires Sentinel(u)
    ensures CalcSuffixArray(u)[0] == |u| - 1
  {
    var sa := CalcSuffixArray(u);
    BwtFacts(u);
    assert 0 in sa;
    var k :| 0 <= k < |sa| && sa[k] == 0;
    LfStep(u, sa, Bwt(u), k);
    LfZero(u, sa, Bwt(u), k);
  }

  /** An object built by `sabwt(s)`: the input and the tables `__init__` derives from it. */
  datatype Sabwt = Sabwt(s: string, sa: seq<nat>, transformed: string, countTable: seq<nat>, alpha: map<char, nat>)

  /** The tables are the ones `__init__` computes from `s`. */
  predicate Valid(b: Sabwt)
  {
    && b.sa == CalcSuffixArray(b.s)
    && b.transformed == Transform(b.s, b.sa)
    && RankTables(b.transformed, b.countTable, b.alpha)
  }

  /** `sabwt(s)`: suffix array, transform, then rank tables. */
  method Create(s: string) returns (b: Sabwt)
    ensures b.s == s && Valid(b)
  {
    var sa := CalcSuffixArray(s);
    var t := Transform(s, sa);
    var countTable, alpha := CountAlpha(t);
    b := Sabwt(s, sa, t, countTable, alpha);
  }

  /**
   * The walk `inverse` relies on: row `k` of `t` holds the symbol before the
   * suffix of row `k`, and the LF-mapping leads to the row of that symbol's
   * suffix.
   */
  ghost predicate LfWalk(u: string, sa: seq<nat>, t: string)
  {
    && |sa| == |u| && |t| == |u|
    && (forall k :: 0 <= k < |u| ==> sa[k] < |u| && t[k] == u[Prev(|u|, sa[k])])
    && (forall k {:trigger Lf(t, k)} :: 0 <= k < |u| ==> Lf(t, k) < |u| && sa[Lf(t, k)] == Prev(|u|, sa[k]))
  }

  lemma LfWalkHolds(u: string, sa: seq<nat>, t: string)
    requires Sentinel(u) && SuffixOrder(u, sa) && LastColumn(u, sa, t)
    ensures LfWalk(u, sa, t)
  {
    forall k | 0 <= k < |u|
      ensures Lf(t, k) < |u| && sa[Lf(t, k)] == Prev(|u|, sa[k])
    {
      LfStep(u, sa, t, k);
    }
  }

  /**
   * One round of `inverse`: reading row `p`, whose suffix starts at
   * `n - 1 - m`, prepends the symbol before that suffix and moves to the row
   * of the suffix one position earlier; the sentinel is read exactly when the
   * suffix is the whole string.
   */
  lemma InverseStep(u: string, sa: seq<nat>, t: string, p: nat, m: nat, s: string)
    requires Sentinel(u) && LfWalk(u, sa, t)
    requires p < |u| && m < |u| && sa[p] == |u| - 1 - m && s == u[|u| - 1 - m..|u| - 1] + "$"
    ensures Lf(t, p) < |u|
    ensures t[p] != '$' ==> m + 1 < |u| && sa[Lf(t, p)] == |u| - 1 - (m + 1)
    ensures t[p] != '$' ==> [t[p]] + s == u[|u| - 1 - (m + 1)..|u| - 1] + "$"
    ensures t[p] == '$' ==> [t[p]] + s == "$" + u
  {
    var n := |u|;
    if sa[p] > 0 {
      PrependSymbol(u, sa[p]);
    } else {
      PrependSentinel(u);
    }
  }

  lemma PrependSymbol(u: string, i: nat)
    requires 0 < i < |u|
    ensures [u[i - 1]] + (u[i..|u| - 1] + "$") == u[i - 1..|u| - 1] + "$"
  {
    assert u[i - 1..|u| - 1] == [u[i - 1]] + u[i..|u| - 1];
  }

  lemma PrependSentinel(u: string)
    requires |u| > 0 && u[|u| - 1] == '$'
    ensures [u[|u| - 1]] + (u[0..|u| - 1] + "$") == "$" + u
  {
    assert u == u[0..|u| - 1] + "$";
  }

  /**
   * `inverse` (sabwt.py and bwt.py alike): from row 0, repeatedly prepend the
   * last-column symbol of the current row and move to its LF-row, stopping
   * once `'$'` has been read; the initial `"$"` is then dropped.  Row 0 holds
   * the sentinel suffix, so the rows visited are those of the suffixes at
   * n-1, n-2, ..., 0 and the symbols read are `u` backwards, ending with its
   * `'$'`.
   */
  method Invert(transformed: string, countTable: seq<nat>, alpha: map<char, nat>, ghost u: string, ghost sa: seq<nat>)
    returns (r: string)
    requires Sentinel(u) && LfWalk(u, sa, transformed) && sa[0] == |u| - 1
    requires RankTables(transformed, countTable, alpha)
    ensures r == u
  {
    ghost var n := |u|;
    var p: nat := 0;
    var s := "$";
    // Python starts `x` at the integer 0; any value other than '$' behaves alike.
    var x: char := 0 as char;
    ghost var m := 0;
    while x != '$'
      invariant m <= n && p < n
      invariant x != '$' ==> m < n && sa[p] == n - 1 - m && s == u[n - 1 - m..n - 1] + "$"
      invariant x == '$' ==> s == "$" + u
      decreases n - m
    {
      InverseStep(u, sa, transformed, p, m, s);
      LfFromTables(transformed, countTable, alpha, p);
      x := transformed[p];
      s := [x] + s;
      p := alpha[x] + countTable[p];
      m := m + 1;
    }
    r := s[1..];
  }

  /** `sabwt.inverse`: recovers the input of a sentinel-terminated string. */
  method Inverse(b: Sabwt) returns (r: string)
    requires Valid(b) && Sentinel(b.s)
    ensures r == b.s
  {
    BwtFacts(b.s);
    LfWalkHolds(b.s, b.sa, b.transformed);
    SentinelFirst(b.s);
    r := Invert(b.transformed, b.countTable, b.alpha, b.s, b.sa);
  }
}
