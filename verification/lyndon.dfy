/**
 * Duval's Lyndon factorisation as `lf_duval` runs it (bwts.py:5-20, the same
 * code as mapping.py:20-35).  Cursor `i` marks the start of the unfactored
 * rest, `j` scans ahead and `k` trails `j` by the period `j - k` of what has
 * been scanned; once the scan stops, as many copies of the period word as fit
 * before `k` are emitted.
 */
module Lyndon {
  import opened Seqs

  /**
   * The inner scan of `lf_duval` from cursors `j` and `k`: it returns where
   * `j` and `k` stop.  A larger symbol resets `k` to `i`, an equal one moves
   * `k` forward; both advance `j`.
   */
  function Scan(s: string, i: nat, j: nat, k: nat): (r: (nat, nat))
    requires i <= k < j <= |s|
    ensures i <= r.1 < r.0 <= |s|
    decreases |s| - j
  {
    if j < |s| && s[k] <= s[j] then Scan(s, i, j + 1, if s[k] < s[j] then i else k + 1)
    else (j, k)
  }

  /** `s[i..j]` repeats with period `p`: shifted by `p` it agrees with itself. */
  predicate Periodic(s: string, i: nat, j: nat, p: nat)
    requires j <= |s|
  {
    i + p <= j ==> s[i + p..j] == s[i..j - p]
  }

  /** Any stretch inside a periodic part equals the stretch one period earlier. */
  lemma PeriodicAt(s: string, i: nat, j: nat, p: nat, a: nat, b: nat)
    requires j <= |s| && Periodic(s, i, j, p)
    requires i <= a <= b && b + p <= j
    ensures s[a + p..b + p] == s[a..b]
  {
    forall x | 0 <= x < b - a
      ensures s[a + p..b + p][x] == s[a..b][x]
    {
      assert s[a + p + x] == s[i + p..j][a - i + x];
      assert s[a + x] == s[i..j - p][a - i + x];
    }
  }

  /** What the scan has read repeats with the period `j - k` it stops at. */
  lemma {:induction false} ScanPeriodic(s: string, i: nat, j: nat, k: nat)
    requires i <= k < j <= |s| && Periodic(s, i, j, j - k)
    ensures var r := Scan(s, i, j, k); Periodic(s, i, r.0, r.0 - r.1)
    decreases |s| - j
  {
    if j < |s| && s[k] <= s[j] {
      var k' := if s[k] < s[j] then i else k + 1;
      ScanExtend(s, i, j, k);
      ScanPeriodic(s, i, j + 1, k');
      assert Scan(s, i, j, k) == Scan(s, i, j + 1, k');
    }
  }

  /** One step of the scan keeps the period it tracks. */
  lemma ScanExtend(s: string, i: nat, j: nat, k: nat)
    requires i <= k < j < |s| && s[k] <= s[j] && Periodic(s, i, j, j - k)
    ensures Periodic(s, i, j + 1, j + 1 - (if s[k] < s[j] then i else k + 1))
  {
    if s[k] == s[j] {
      var p := j - k;
      assert s[i + p..j + 1] == s[i + p..j] + [s[j]];
      assert s[i..j + 1 - p] == s[i..j - p] + [s[k]];
    }
  }

  /**
   * The factors `lf_duval` emits from position `i` on.  One pass scans from
   * `i`, then emits the period word `w` of the scanned part once and, through
   * `Run`, again for every further start position up to `k`.
   */
  function Factors(s: string, i: nat): seq<string>
    requires i <= |s|
    decreases |s| - i, 0
  {
    if i == |s| then []
    else
      var r := Scan(s, i, i + 1, i);
      var w := s[i..i + (r.0 - r.1)];
      [w] + Run(s, w, i + |w|, r.1)
  }

  /** The rest of a pass: copies of `w` while the cursor is at most `k`, then the next pass. */
  function Run(s: string, w: string, i: nat, k: nat): seq<string>
    requires 0 < |w| && k + |w| <= |s| && i <= k + |w|
    decreases |s| - i, 1
  {
    if i <= k then [w] + Run(s, w, i + |w|, k) else Factors(s, i)
  }

  /** A period word that starts at `i` starts again `|w|` later while the period holds. */
  lemma PeriodShift(s: string, i0: nat, j: nat, w: string, i: nat)
    requires j <= |s| && Periodic(s, i0, j, |w|)
    requires i0 <= i && i + 2 * |w| <= j && s[i..i + |w|] == w
    ensures s[i + |w|..i + 2 * |w|] == w
  {
    PeriodicAt(s, i0, j, |w|, i, i + |w|);
  }

  /**
   * `lf_duval`: the loops over cursors `i`, `j` and `k`, appending the slice
   * `s[i:i + j - k]` while `i <= k`.
   */
  method LfDuval(s: string) returns (factors: seq<string>)
    ensures factors == Factors(s, 0)
  {
    ghost var all := Factors(s, 0);
    var i := 0;
    factors := [];
    while i < |s|
      invariant Progress(s, i, factors, all)
      decreases |s| - i
    {
      var j, k := ScanPass(s, i);
      EmitStart(s, i, j, k, factors, all);
      i, factors := EmitPass(s, i, j, k, factors, all);
    }
    ProgressDone(s, factors, all);
  }

  /** The inner scan of a pass from `i`: `j` advances while `s[k] <= s[j]`. */
  method ScanPass(s: string, i: nat) returns (j: nat, k: nat)
    requires i < |s|
    ensures Scanning(s, i, j, k) && !(j < |s| && s[k] <= s[j])
  {
    j := i + 1;
    k := i;
    while j < |s| && s[k] <= s[j]
      invariant Scanning(s, i, j, k)
      decreases |s| - j
    {
      ScanStep(s, i, j, k);
      if s[k] < s[j] {
        k := i;
      } else {
        k := k + 1;
      }
      j := j + 1;
    }
  }

  /** The emitting loop of a pass: copies of `s[i:i + j - k]` are appended while `i <= k`. */
  method EmitPass(s: string, i: nat, j: nat, k: nat, factors: seq<string>, ghost all: seq<string>)
    returns (i': nat, factors': seq<string>)
    requires i <= k < j <= |s|
    requires Emitting(s, i, j, k, s[i..i + (j - k)], i, factors, all)
    ensures i < i' && Progress(s, i', factors', all)
  {
    ghost var w := s[i..i + (j - k)];
    i', factors' := i, factors;
    while i' <= k
      invariant Emitting(s, i, j, k, w, i', factors', all)
      decreases k + 1 - i'
    {
      EmitStep(s, i, j, k, w, i', factors', all);
      factors' := factors' + [s[i'..i' + (j - k)]];
      i' := i' + (j - k);
    }
    EmitDone(s, i, j, k, w, i', factors', all);
  }

  /** Between passes: the factors so far followed by those of the rest are all factors. */
  ghost predicate Progress(s: string, i: nat, factors: seq<string>, all: seq<string>)
  {
    i <= |s| && factors + Factors(s, i) == all
  }

  lemma ProgressDone(s: string, factors: seq<string>, all: seq<string>)
    requires Progress(s, |s|, factors, all)
    ensures factors == all
  {
  }

  /** While the inner scan of a pass from `i` runs: it ends where a scan from the start ends. */
  ghost predicate Scanning(s: string, i: nat, j: nat, k: nat)
  {
    && i <= k < j <= |s|
    && Scan(s, i, j, k) == Scan(s, i, i + 1, i)
    && Periodic(s, i, j, j - k)
  }

  lemma ScanStep(s: string, i: nat, j: nat, k: nat)
    requires Scanning(s, i, j, k) && j < |s| && s[k] <= s[j]
    ensures Scanning(s, i, j + 1, if s[k] < s[j] then i else k + 1)
  {
    ScanExtend(s, i, j, k);
  }

  /**
   * While `lf_duval` emits the copies of the period word `w` of a pass that
   * started at `i0` and scanned up to `j`: each cursor position up to `k`
   * starts another copy of `w`.
   */
  ghost predicate Emitting(s: string, i0: nat, j: nat, k: nat, w: string, i: nat, factors: seq<string>, all: seq<string>)
  {
    && i0 <= k < j <= |s| && |w| == j - k
    && Periodic(s, i0, j, |w|)
    && i0 <= i <= k + |w|
    && (i <= k ==> s[i..i + |w|] == w)
    && factors + Run(s, w, i, k) == all
  }

  lemma EmitStart(s: string, i: nat, j: nat, k: nat, factors: seq<string>, all: seq<string>)
    requires Scanning(s, i, j, k) && !(j < |s| && s[k] <= s[j])
    requires Progress(s, i, factors, all)
    ensures Emitting(s, i, j, k, s[i..i + (j - k)], i, factors, all)
  {
  }

  lemma EmitDone(s: string, i0: nat, j: nat, k: nat, w: string, i: nat, factors: seq<string>, all: seq<string>)
    requires Emitting(s, i0, j, k, w, i, factors, all) && k < i
    ensures i0 < i && Progress(s, i, factors, all)
  {
  }

  lemma EmitStep(s: string, i0: nat, j: nat, k: nat, w: string, i: nat, factors: seq<string>, all: seq<string>)
    requires Emitting(s, i0, j, k, w, i, factors, all) && i <= k
    ensures Emitting(s, i0, j, k, w, i + (j - k), factors + [s[i..i + (j - k)]], all)
  {
    var rest := Run(s, w, i + |w|, k);
    assert Run(s, w, i, k) == [w] + rest;
    assert (factors + [w]) + rest == factors + ([w] + rest);
    if i + |w| <= k {
      PeriodShift(s, i0, j, w, i);
    }
  }

  /** Concatenating the factors from `i` gives back `s[i..]`. */
  lemma {:induction false} FactorsConcat(s: string, i: nat)
    requires i <= |s|
    ensures Flatten(Factors(s, i)) == s[i..]
    decreases |s| - i, 0
  {
    if i == |s| {
      assert Factors(s, i) == [];
    } else {
      var r, w := FactorsStep(s, i);
      var run := Run(s, w, i + |w|, r.1);
      ScanPeriodic(s, i, i + 1, i);
      RunConcat(s, w, i + |w|, r.1, i);
      FlattenCons(w, run);
      SuffixSplit(s, i, i + |w|);
    }
  }

  /** A suffix is a stretch followed by the suffix after it. */
  lemma SuffixSplit(s: string, i: nat, j: nat)
    requires i <= j <= |s|
    ensures s[i..] == s[i..j] + s[j..]
  {
  }

  /** One pass of `Factors`: the period word of the scan from `i`, then the run that follows it. */
  lemma FactorsStep(s: string, i: nat) returns (r: (nat, nat), w: string)
    requires i < |s|
    ensures r == Scan(s, i, i + 1, i) && i <= r.1 < r.0 <= |s|
    ensures w == s[i..i + (r.0 - r.1)] && r.1 + |w| == r.0
    ensures Factors(s, i) == [w] + Run(s, w, i + |w|, r.1)
  {
    r := Scan(s, i, i + 1, i);
    w := s[i..i + (r.0 - r.1)];
  }

  lemma {:induction false} RunConcat(s: string, w: string, i: nat, k: nat, i0: nat)
    requires 0 < |w| && k + |w| <= |s| && i <= k + |w|
    requires i0 + |w| <= i && s[i - |w|..i] == w
    requires Periodic(s, i0, k + |w|, |w|)
    ensures Flatten(Run(s, w, i, k)) == s[i..]
    decreases |s| - i, 1
  {
    if i <= k {
      PeriodicAt(s, i0, k + |w|, |w|, i - |w|, i);
      RunConcat(s, w, i + |w|, k, i0);
      FlattenCons(w, Run(s, w, i + |w|, k));
    } else {
      FactorsConcat(s, i);
    }
  }

  /** Every factor from `i` on is non-empty. */
  lemma {:induction false} FactorsNonEmpty(s: string, i: nat)
    requires i <= |s|
    ensures forall a :: 0 <= a < |Factors(s, i)| ==> |Factors(s, i)[a]| > 0
    decreases |s| - i, 0
  {
    if i < |s| {
      var r := Scan(s, i, i + 1, i);
      RunNonEmpty(s, s[i..i + (r.0 - r.1)], i + (r.0 - r.1), r.1);
    }
  }

  lemma {:induction false} RunNonEmpty(s: string, w: string, i: nat, k: nat)
    requires 0 < |w| && k + |w| <= |s| && i <= k + |w|
    ensures forall a :: 0 <= a < |Run(s, w, i, k)| ==> |Run(s, w, i, k)[a]| > 0
    decreases |s| - i, 1
  {
    if i <= k {
      RunNonEmpty(s, w, i + |w|, k);
    } else {
      FactorsNonEmpty(s, i);
    }
  }

  /** `lf_duval` splits `s` into non-empty factors that concatenate back to `s`. */
  lemma Factorisation(s: string)
    ensures Flatten(Factors(s, 0)) == s
    ensures forall a :: 0 <= a < |Factors(s, 0)| ==> |Factors(s, 0)[a]| > 0
  {
    FactorsConcat(s, 0);
    FactorsNonEmpty(s, 0);
  }
}
