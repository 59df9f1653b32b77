/**
 * The rotation-matrix Burrows-Wheeler transform of bwt.py: append `'$'`,
 * list every rotation, sort the rotations and read their last symbols.  Its
 * `count_alpha` and `inverse` are the code of sabwt.py, modelled once in
 * `Ranks.CountAlpha` and `SuffixArrayBwt.Invert`.
 */
module MatrixBwt {
  import opened Lex
  import opened Seqs
  import opened Sorting
  import opened Ranks
  import SA = SuffixArrayBwt

  /** `s[i:len(s)] + s[0:i]`: the rotation of `u` that starts at `i`. */
  function Rotation(u: string, i: nat): string
    requires i <= |u|
  {
    u[i..] + u[..i]
  }

  /** The rotations of `u`, in order of their starting position. */
  function Rotations(u: string): (r: seq<string>)
    ensures |r| == |u|
  {
    seq(|u|, i requires 0 <= i < |u| => Rotation(u, i))
  }

  /** The sorted rotations of `s + '$'`, as `calc_matrix` leaves them. */
  function Matrix(s: string): (m: seq<string>)
    ensures |m| == |s| + 1
    ensures forall k :: 0 <= k < |m| ==> |m[k]| == |s| + 1
    ensures multiset(m) == multiset(Rotations(s + "$"))
    ensures SortedBy(m, Id)
  {
    SortBySorted(Rotations(s + "$"), Id);
    RowLengths(Rotations(s + "$"), SortBy(Rotations(s + "$"), Id), |s| + 1);
    SortBy(Rotations(s + "$"), Id)
  }

  lemma RowLengths(rows: seq<string>, m: seq<string>, n: nat)
    requires forall k :: 0 <= k < |rows| ==> |rows[k]| == n
    requires multiset(m) == multiset(rows)
    ensures forall k :: 0 <= k < |m| ==> |m[k]| == n
  {
    forall k | 0 <= k < |m|
      ensures |m[k]| == n
    {
      assert m[k] in multiset(rows);
    }
  }

  /** `calc_matrix`: append every rotation of `s + '$'`, then sort the list. */
  method CalcMatrix(s: string) returns (matrix: seq<string>)
    ensures matrix == Matrix(s)
  {
    var u := s + "$";
    matrix := [];
    for i := 0 to |u|
      invariant |matrix| == i
      invariant forall j :: 0 <= j < i ==> matrix[j] == Rotation(u, j)
    {
      matrix := matrix + [u[i..|u|] + u[0..i]];
    }
    assert matrix == Rotations(u);
    // `matrix.sort()`
    matrix := SortBy(matrix, Id);
  }

  /** `transform`: the last symbol of every row. */
  function Transform(matrix: seq<string>): (t: string)
    requires forall k :: 0 <= k < |matrix| ==> |matrix[k]| > 0
    ensures |t| == |matrix|
  {
    seq(|matrix|, k requires 0 <= k < |matrix| => matrix[k][|matrix[k]| - 1])
  }

  /** The last symbol of the rotation at `i` is the symbol cyclically before `i`. */
  lemma RotationLast(u: string, i: nat)
    requires i < |u|
    ensures |Rotation(u, i)| == |u|
    ensures Rotation(u, i)[|u| - 1] == u[SA.Prev(|u|, i)]
  {
  }

  /** The transform of the sorted matrix rearranges the symbols of `s + '$'`. */
  lemma TransformPermutes(s: string)
    ensures multiset(Transform(Matrix(s))) == multiset(s + "$")
  {
    var u := s + "$";
    var n := |u|;
    var rows := Rotations(u);
    var sorted := Matrix(s);
    var last := (w: string) => if |w| > 0 then w[|w| - 1] else '$';
    MapSeqMultiset(sorted, rows, last);
    assert MapSeq(sorted, last) == Transform(sorted);
    // the last symbols of the rotations in starting order: `u` rotated by one
    forall i | 0 <= i < n
      ensures MapSeq(rows, last)[i] == ([u[n - 1]] + u[..n - 1])[i]
    {
      RotationLast(u, i);
    }
    assert MapSeq(rows, last) == [u[n - 1]] + u[..n - 1];
    assert u == u[..n - 1] + [u[n - 1]];
  }

  /** With the sentinel, no suffix is a proper prefix of another. */
  lemma SuffixNotPrefix(u: string, a: nat, b: nat)
    requires SA.Sentinel(u) && a < |u| && b < |u| && a != b
    ensures !IsPrefix(u[a..], u[b..])
  {
    if b < a {
      var d := |u| - 1 - a;
      assert u[a..][d] == '$';
      assert u[b..][d] == u[b + d] != '$';
    }
  }

  /** With the sentinel, rotations sort exactly as the suffixes they start with. */
  lemma RotationOrder(u: string, a: nat, b: nat)
    requires SA.Sentinel(u) && a < |u| && b < |u|
    requires LexLt(u[a..], u[b..])
    ensures LexLt(Rotation(u, a), Rotation(u, b))
  {
    SuffixNotPrefix(u, a, b);
    LexLtExtend(u[a..], u[b..], u[..a], u[..b]);
  }

  /**
   * With the sentinel, the sorted matrix lists the rotations in suffix-array
   * order.
   */
  lemma MatrixIsSuffixArray(u: string)
    requires SA.Sentinel(u)
    ensures |u| > 0 && Matrix(u[..|u| - 1]) == MapSeq(SA.CalcSuffixArray(u), (i: nat) => if i <= |u| then Rotation(u, i) else [])
  {
    var n := |u|;
    var sa := SA.CalcSuffixArray(u);
    var bySuffix := MapSeq(sa, (i: nat) => if i <= |u| then Rotation(u, i) else []);
    BySuffixPermutes(u, sa, bySuffix);
    BySuffixSorted(u, sa, bySuffix);
    assert u[..n - 1] + "$" == u;
    SortedUnique(Matrix(u[..n - 1]), bySuffix, Id);
  }

  /** Listing the rotations in suffix-array order rearranges them. */
  lemma BySuffixPermutes(u: string, sa: seq<nat>, bySuffix: seq<string>)
    requires sa == SA.CalcSuffixArray(u)
    requires bySuffix == MapSeq(sa, (i: nat) => if i <= |u| then Rotation(u, i) else [])
    ensures multiset(bySuffix) == multiset(Rotations(u))
  {
    var rot := (i: nat) => if i <= |u| then Rotation(u, i) else [];
    MapSeqMultiset(sa, Range(|u|), rot);
    assert MapSeq(Range(|u|), rot) == Rotations(u);
  }

  /** With the sentinel, rotations listed in suffix-array order are sorted. */
  lemma BySuffixSorted(u: string, sa: seq<nat>, bySuffix: seq<string>)
    requires SA.Sentinel(u) && sa == SA.CalcSuffixArray(u)
    requires bySuffix == MapSeq(sa, (i: nat) => if i <= |u| then Rotation(u, i) else [])
    ensures SortedBy(bySuffix, Id)
  {
    forall a, b | 0 <= a < b < |u|
      ensures LexLe(Id(bySuffix[a]), Id(bySuffix[b]))
    {
      RotationOrder(u, sa[a], sa[b]);
    }
  }

  /**
   * With the sentinel, the matrix transform of bwt.py equals the suffix-array
   * transform of sabwt.py applied to `s + '$'`.
   */
  lemma TransformAgrees(s: string)
    requires forall i :: 0 <= i < |s| ==> '$' < s[i]
    ensures Transform(Matrix(s)) == SA.Bwt(s + "$")
  {
    var u := s + "$";
    var n := |u|;
    var sa := SA.CalcSuffixArray(u);
    MatrixIsSuffixArray(u);
    assert u[..n - 1] == s;
    var sorted := Matrix(s);
    forall k | 0 <= k < n
      ensures Transform(sorted)[k] == SA.Bwt(u)[k]
    {
      RotationLast(u, sa[k]);
    }
  }

  /** An object built by `bwt(s)`: the input and the tables `__init__` derives from it. */
  datatype Bwt = Bwt(s: string, matrix: seq<string>, transformed: string, countTable: seq<nat>, alpha: map<char, nat>)

  /** The tables are the ones `__init__` computes from `s`. */
  predicate Valid(b: Bwt)
  {
    && b.matrix == Matrix(b.s)
    && b.transformed == Transform(b.matrix)
    && RankTables(b.transformed, b.countTable, b.alpha)
  }

  /** `bwt(s)`: matrix, transform, then rank tables. */
  method Create(s: string) returns (b: Bwt)
    ensures b.s == s && Valid(b)
  {
    var matrix := CalcMatrix(s);
    var t := Transform(matrix);
    var countTable, alpha := CountAlpha(t);
    b := Bwt(s, matrix, t, countTable, alpha);
  }

  /**
   * `bwt.inverse`: the string it rebuilds still carries the sentinel, so it
   * returns `s + '$'`, not `s`.
   */
  method Inverse(b: Bwt) returns (r: string)
    requires Valid(b)
    requires forall i :: 0 <= i < |b.s| ==> '$' < b.s[i]
    ensures r == b.s + "$"
  {
    ghost var u := b.s + "$";
    TransformAgrees(b.s);
    SA.BwtFacts(u);
    SA.LfWalkHolds(u, SA.CalcSuffixArray(u), SA.Bwt(u));
    SA.SentinelFirst(u);
    r := SA.Invert(b.transformed, b.countTable, b.alpha, u, SA.CalcSuffixArray(u));
  }
}
