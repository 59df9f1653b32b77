/**
 * The free-standing functions of mapping.py.  Its `lf_duval`,
 * `lf_conjugates` and `find_cycles` are the code of bwts.py and are modelled
 * once, in `Lyndon.LfDuval`, `Bijective.LfConjugates` and `Cycles.FindCycles`;
 * its suffix-array expressions are `SuffixArrayBwt.CalcSuffixArray`,
 * `SuffixArrayBwt.LastIndex` and `SuffixArrayBwt.Transform`.  What is new
 * here is the periodic extension `expend_words`, the transform `bwts` that
 * sorts by it first, and the inverse `ibwts`.
 */
module Mapping {
  import opened Seqs
  import opened Sorting
  import opened Cycles
  import Bijective
  import MatrixBwt

  /** `w` repeated periodically up to length `l`; a word already that long is kept whole. */
  function Expanded(w: string, l: nat): (r: string)
    requires w != [] || l == 0
  {
    if l <= |w| then w else seq(l, k requires 0 <= k < l => w[k % |w|])
  }

  lemma {:induction false} MulAtLeast(d: nat, m: nat)
    requires d >= 1
    ensures d * m >= m
  {
    if d > 1 {
      MulAtLeast(d - 1, m);
      assert d * m == (d - 1) * m + m;
    }
  }

  /** Euclidean division has one quotient and one remainder. */
  lemma ModUnique(a: int, m: int, q: int, r: int)
    requires m > 0 && 0 <= r < m && a == q * m + r
    ensures a % m == r
  {
    var q' := a / m;
    var r' := a % m;
    assert a == q' * m + r';
    if q > q' {
      assert q * m == (q - q') * m + q' * m;
      MulAtLeast(q - q', m);
    } else if q < q' {
      assert q' * m == (q' - q) * m + q * m;
      MulAtLeast(q' - q, m);
    }
  }

  /** Taking one period off leaves the remainder unchanged. */
  lemma ModSub(x: int, m: int)
    requires m > 0
    ensures (x - m) % m == x % m
  {
    assert x == (x / m) * m + x % m;
    assert x - m == (x / m - 1) * m + x % m;
    ModUnique(x - m, m, x / m - 1, x % m);
  }

  /** Taking `reps` periods off leaves the remainder unchanged. */
  lemma {:induction false} ModShift(k: nat, reps: nat, m: nat)
    requires m > 0 && reps * m <= k
    ensures (k - reps * m) % m == k % m
  {
    if reps > 0 {
      assert reps * m == (reps - 1) * m + m;
      ModShift(k, reps - 1, m);
      ModSub(k - (reps - 1) * m, m);
    }
  }

  /**
   * `expend_words`: double the word until it reaches length `l`, cutting the
   * last copy to fit.  For an empty word and `l > 0` the loop never ends.
   */
  method ExpendWords(w: string, l: nat) returns (r: string)
    requires w != [] || l == 0
    ensures r == Expanded(w, l)
  {
    r := w;
    ghost var reps: nat := 1;
    while |r| < l
      invariant |w| <= |r|
      invariant |r| <= l || r == w
      invariant |r| < l ==> |r| == reps * |w|
      invariant forall k :: 0 <= k < |r| ==> r[k] == w[k % |w|]
      decreases l - |r|
    {
      Doubled(w, r, reps);
      r := r + r;
      reps := 2 * reps;
      if |r| > l {
        r := r[0..l];
      }
    }
  }

  /** Doubling a whole number of periods of `w` keeps the pattern. */
  lemma Doubled(w: string, r: string, reps: nat)
    requires w != [] && |r| == reps * |w|
    requires forall k :: 0 <= k < |r| ==> r[k] == w[k % |w|]
    ensures |r + r| == (2 * reps) * |w|
    ensures forall k :: 0 <= k < |r + r| ==> (r + r)[k] == w[k % |w|]
  {
    forall k | |r| <= k < |r + r|
      ensures (r + r)[k] == w[k % |w|]
    {
      var j := k - |r|;
      assert (r + r)[k] == r[j];
      ModShift(k, reps, |w|);
    }
  }

  /**
   * The expansion keeps `w` as a prefix, has length `max(len(w), l)`, and
   * repeats with period `len(w)`.
   */
  lemma ExpandedPeriodic(w: string, l: nat)
    requires w != [] || l == 0
    ensures |Expanded(w, l)| == if l <= |w| then |w| else l
    ensures |w| <= |Expanded(w, l)| && Expanded(w, l)[..|w|] == w
    ensures forall k :: |w| <= k < |Expanded(w, l)| ==> Expanded(w, l)[k] == Expanded(w, l)[k - |w|]
  {
    var r := Expanded(w, l);
    if |w| < l {
      forall k | 0 <= k < |w|
        ensures r[k] == w[k]
      {
        ModUnique(k, |w|, 0, k);
      }
      forall k | |w| <= k < |r|
        ensures r[k] == r[k - |w|]
      {
        ModSub(k, |w|);
      }
    }
  }

  /**
   * The sort key of `bwts`: a conjugate expanded to the input's length.
   * Conjugates are never empty; the empty word, on which `expend_words`
   * would not return, is mapped to itself.
   */
  function PeriodicKey(l: nat): string -> string
  {
    (w: string) => if w == [] then w else Expanded(w, l)
  }

  /**
   * `bwts`: sort the conjugates by their periodic expansion, then sort the
   * result again by plain string order and read the last symbols.  The
   * second sort alone decides the order, so the result is the transform of
   * bwts.py.
   */
  method Bwts(s: string) returns (r: string)
    ensures r == Bijective.Transform(s)
  {
    var rotations := Bijective.LfConjugates(s);
    var byExpansion := SortBy(rotations, PeriodicKey(|s|));
    var sorted := SortBy(byExpansion, Id);
    Bijective.ConjugatesFacts(s);
    SortBySorted(byExpansion, Id);
    SortedUnique(sorted, Bijective.SortedConjugates(s), Id);
    r := MatrixBwt.Transform(sorted);
  }

  /** `enumerate(s)`: every position paired with its symbol. */
  function Enumerate(s: string): (r: seq<(nat, char)>)
    ensures |r| == |s| && forall k :: 0 <= k < |s| ==> r[k] == (k, s[k])
  {
    seq(|s|, k requires 0 <= k < |s| => (k, s[k]))
  }

  /** `lambda p: p[1]`, the symbol of a pair, compared as a one-symbol string. */
  function PairKey(p: (nat, char)): string
  {
    [p.1]
  }

  /** `x[0]`, the position of a pair. */
  function Position(p: (nat, char)): nat
  {
    p.0
  }

  /** The keys of `ibwts`: the positions of `s` after a stable sort of the pairs by symbol. */
  function PairKeys(s: string): (keys: seq<nat>)
    ensures |keys| == |s|
  {
    MapSeq(SortBy(Enumerate(s), PairKey), Position)
  }

  /**
   * Sorting the pairs by symbol and keeping their positions gives the same
   * list as stably sorting the positions by symbol (`sorted_keys` of bwts.py
   * applied to `s`).
   */
  lemma PairKeysStable(s: string)
    ensures PairKeys(s) == Bijective.StableKeys(s)
  {
    EnumerateKeys(s);
    EnumeratePositions(s);
    SortByMap(Enumerate(s), Position, PairKey, Bijective.SymbolKey(s));
  }

  /** The symbol of a pair is the symbol at its position. */
  lemma EnumerateKeys(s: string)
    ensures forall z :: z in Enumerate(s) ==> PairKey(z) == Bijective.SymbolKey(s)(Position(z))
  {
    var pairs := Enumerate(s);
    forall z | z in pairs
      ensures PairKey(z) == Bijective.SymbolKey(s)(Position(z))
    {
      var k :| 0 <= k < |pairs| && pairs[k] == z;
    }
  }

  /** The positions of `enumerate(s)` are `range(len(s))`. */
  lemma EnumeratePositions(s: string)
    ensures MapSeq(Enumerate(s), Position) == Range(|s|)
  {
  }

  /**
   * `''.join([''.join(map(lambda i: s[i], cycle)) for cycle in cycles])`:
   * joining the strings read along each cycle is reading `s` along the
   * concatenated cycles.
   */
  function JoinCycles(s: string, cycles: seq<seq<nat>>): (r: string)
    requires forall k :: 0 <= k < |Flatten<nat>(cycles)| ==> Flatten<nat>(cycles)[k] < |s|
    ensures r == Gather(s, Flatten<nat>(cycles))
  {
    if cycles == [] then []
    else
      var init, last := cycles[..|cycles| - 1], cycles[|cycles| - 1];
      JoinStep(s, cycles, init, last);
      JoinCycles(s, init) + Gather(s, last)
  }

  /** Reading along all cycles is reading along all but the last, then along the last. */
  lemma JoinStep(s: string, cycles: seq<seq<nat>>, init: seq<seq<nat>>, last: seq<nat>)
    requires cycles != [] && init == cycles[..|cycles| - 1] && last == cycles[|cycles| - 1]
    requires forall k :: 0 <= k < |Flatten<nat>(cycles)| ==> Flatten<nat>(cycles)[k] < |s|
    ensures forall k :: 0 <= k < |Flatten<nat>(init)| ==> Flatten<nat>(init)[k] < |s|
    ensures forall k :: 0 <= k < |last| ==> last[k] < |s|
    ensures Gather(s, Flatten<nat>(cycles)) == Gather(s, Flatten<nat>(init)) + Gather(s, last)
  {
    var flat := Flatten<nat>(cycles);
    assert flat == Flatten<nat>(init) + last;
    GatherAppend(s, Flatten<nat>(init), last);
  }

  /** Reading along two lists of positions one after the other. */
  lemma GatherAppend(s: string, p: seq<nat>, q: seq<nat>)
    requires forall k :: 0 <= k < |p + q| ==> (p + q)[k] < |s|
    ensures forall k :: 0 <= k < |p| ==> p[k] < |s|
    ensures forall k :: 0 <= k < |q| ==> q[k] < |s|
    ensures Gather(s, p + q) == Gather(s, p) + Gather(s, q)
  {
    forall k | 0 <= k < |p|
      ensures p[k] < |s|
    {
      assert (p + q)[k] == p[k];
    }
    forall k | 0 <= k < |q|
      ensures q[k] < |s|
    {
      assert (p + q)[|p| + k] == q[k];
    }
  }

  /**
   * `ibwts`: stable keys of `s` by symbol, their cycles, and `s` read along
   * the cycles.  The result rearranges the symbols of `s`.
   */
  method Ibwts(s: string) returns (r: string)
    ensures Bijective.ReadAlongCycles(s, Bijective.StableKeys(s), r)
    ensures multiset(r) == multiset(s)
  {
    var keys := PairKeys(s);
    PairKeysStable(s);
    PermutationFacts(keys, |s|);
    var cycles := FindCycles(keys);
    Bijective.ReadAlongGather(s, keys, cycles);
    r := JoinCycles(s, cycles);
  }
}
