/**
 * The rank tables of a transformed string (sabwt.py:19-32, identical in
 * bwt.py:19-32): for every row the rank of its symbol among equal earlier
 * symbols, and for every symbol the number of strictly smaller symbols.  Their
 * sum is the LF-mapping used to invert the transform.
 */
module Ranks {
  import opened Seqs
  import opened Counting

  /** Row `k` of the LF-mapping: `alpha[t[k]] + count_table[k]`. */
  function Lf(t: string, k: nat): nat
    requires k < |t|
  {
    Less(t, t[k]) + Count(t[..k], t[k])
  }

  /**
   * The tables `count_alpha` returns for `t`: the occurrence rank of every
   * row's symbol, and for each symbol of `t` the number of smaller symbols.
   */
  predicate RankTables(t: string, countTable: seq<nat>, alpha: map<char, nat>)
  {
    && |countTable| == |t|
    && (forall k :: 0 <= k < |t| ==> countTable[k] == Count(t[..k], t[k]))
    && (forall c :: c in alpha <==> c in t)
    && (forall c :: c in alpha ==> alpha[c] == Less(t, c))
  }

  /** `alpha[t[k]] + count_table[k]` is row `k` of the LF-mapping. */
  lemma LfFromTables(t: string, countTable: seq<nat>, alpha: map<char, nat>, k: nat)
    requires RankTables(t, countTable, alpha) && k < |t|
    ensures t[k] in alpha && alpha[t[k]] + countTable[k] == Lf(t, k)
  {
  }

  /**
   * `count_alpha`: one pass builds per-symbol running counts and the
   * occurrence rank of every position; a second pass over the symbols in
   * ascending order turns each count into the number of strictly smaller
   * symbols.
   */
  method CountAlpha(t: string) returns (countTable: seq<nat>, alpha: map<char, nat>)
    ensures |countTable| == |t|
    ensures forall k :: 0 <= k < |t| ==> countTable[k] == Count(t[..k], t[k])
    ensures forall c :: c in alpha <==> c in t
    ensures forall c :: c in alpha ==> alpha[c] == Less(t, c)
  {
    countTable, alpha := Tally(t);
    alpha := Accumulate(t, alpha);
  }

  /** What the first loop of `count_alpha` knows after reading `t[..k]`. */
  predicate Tallied(t: string, k: nat, countTable: seq<nat>, alpha: map<char, nat>)
    requires k <= |t|
  {
    && |countTable| == k
    && (forall j :: 0 <= j < k ==> countTable[j] == Count(t[..j], t[j]))
    && (forall c :: c in alpha <==> Count(t[..k], c) > 0)
    && (forall c :: c in alpha ==> alpha[c] == Count(t[..k], c))
  }

  lemma TallyStep(t: string, k: nat, countTable: seq<nat>, alpha: map<char, nat>)
    requires k < |t| && Tallied(t, k, countTable, alpha)
    ensures var seen := if t[k] in alpha then alpha else alpha[t[k] := 0];
      Tallied(t, k + 1, countTable + [seen[t[k]]], seen[t[k] := seen[t[k]] + 1])
  {
    forall c
      ensures Count(t[..k + 1], c) == Count(t[..k], c) + (if t[k] == c then 1 else 0)
    {
      CountStep(t, k, c);
    }
  }

  lemma TallyDone(t: string, countTable: seq<nat>, alpha: map<char, nat>)
    requires Tallied(t, |t|, countTable, alpha)
    ensures forall k :: 0 <= k < |t| ==> countTable[k] == Count(t[..k], t[k])
    ensures forall c :: c in alpha <==> c in t
    ensures forall c :: c in alpha ==> alpha[c] == Count(t, c)
  {
    assert t[..|t|] == t;
    forall c
      ensures c in t <==> Count(t, c) > 0
    {
      CountBounds(t, c);
    }
  }

  /** The first loop of `count_alpha`: occurrence ranks and symbol totals. */
  method Tally(t: string) returns (countTable: seq<nat>, alpha: map<char, nat>)
    ensures |countTable| == |t|
    ensures forall k :: 0 <= k < |t| ==> countTable[k] == Count(t[..k], t[k])
    ensures forall c :: c in alpha <==> c in t
    ensures forall c :: c in alpha ==> alpha[c] == Count(t, c)
  {
    countTable := [];
    alpha := map[];
    for k := 0 to |t|
      invariant Tallied(t, k, countTable, alpha)
    {
      TallyStep(t, k, countTable, alpha);
      var x := t[k];
      if x !in alpha {
        alpha := alpha[x := 0];
      }
      countTable := countTable + [alpha[x]];
      alpha := alpha[x := alpha[x] + 1];
    }
    TallyDone(t, countTable, alpha);
  }

  /** `keys` lists the distinct symbols of `t` in ascending order, as `sorted(alpha.keys())` does. */
  predicate SortedSymbols(t: string, keys: seq<char>)
  {
    Ascending(keys) && forall c :: c in keys <==> c in t
  }

  /**
   * What the second loop of `count_alpha` knows after visiting the first `i`
   * symbols in ascending order, `total` being the running sum.
   */
  predicate Accumulated(t: string, keys: seq<char>, i: nat, alpha: map<char, nat>, total: nat)
  {
    && SortedSymbols(t, keys)
    && i <= |keys|
    && (forall c :: c in alpha <==> c in t)
    && (forall j :: 0 <= j < i ==> alpha[keys[j]] == Less(t, keys[j]))
    && (forall j :: i <= j < |keys| ==> alpha[keys[j]] == Count(t, keys[j]))
    && (i < |keys| ==> total == Less(t, keys[i]))
  }

  lemma AccumulateStart(t: string, keys: seq<char>, counts: map<char, nat>)
    requires SortedSymbols(t, keys)
    requires forall c :: c in counts <==> c in t
    requires forall c :: c in counts ==> counts[c] == Count(t, c)
    ensures Accumulated(t, keys, 0, counts, 0)
  {
    if keys != [] {
      forall p | 0 <= p < |t|
        ensures keys[0] <= t[p]
      {
        assert t[p] in keys;
      }
      LessNone(t, keys[0]);
    }
  }

  lemma AccumulateStep(t: string, keys: seq<char>, i: nat, alpha: map<char, nat>, total: nat)
    requires i < |keys| && Accumulated(t, keys, i, alpha, total)
    ensures Accumulated(t, keys, i + 1, alpha[keys[i] := total], total + alpha[keys[i]])
  {
    var c := keys[i];
    var alpha' := alpha[c := total];
    assert c in t;
    forall j | 0 <= j < |keys| && j != i
      ensures alpha'[keys[j]] == alpha[keys[j]]
    {
      assert keys[j] != c;
    }
    if i + 1 < |keys| {
      LessNextKey(t, keys, i);
    }
  }

  /** Consecutive symbols of `t`: the next one has the current one's count added. */
  lemma LessNextKey(t: string, keys: seq<char>, i: nat)
    requires SortedSymbols(t, keys) && i + 1 < |keys|
    ensures Less(t, keys[i + 1]) == Less(t, keys[i]) + Count(t, keys[i])
  {
    forall p | 0 <= p < |t|
      ensures !(keys[i] < t[p] < keys[i + 1])
    {
      assert t[p] in keys;
      AscendingGap(keys, i, t[p]);
    }
    LessNext(t, keys[i], keys[i + 1]);
  }

  /** `LessNextKey` for the symbols as `np.unique` lists them. */
  lemma LessNextSymbol(t: string, i: nat)
    requires i + 1 < |Symbols(t)|
    ensures Less(t, Symbols(t)[i + 1]) == Less(t, Symbols(t)[i]) + Count(t, Symbols(t)[i])
  {
    LessNextKey(t, Symbols(t), i);
  }

  lemma AccumulateDone(t: string, keys: seq<char>, alpha: map<char, nat>, total: nat)
    requires Accumulated(t, keys, |keys|, alpha, total)
    ensures forall c :: c in alpha ==> alpha[c] == Less(t, c)
  {
    forall c | c in alpha
      ensures alpha[c] == Less(t, c)
    {
      assert c in keys;
    }
  }

  /**
   * The second loop of `count_alpha`: visiting the symbols in ascending order
   * (`sorted(alpha.keys())`), each total is replaced by the running sum of the
   * totals before it.
   */
  method Accumulate(t: string, counts: map<char, nat>) returns (alpha: map<char, nat>)
    requires forall c :: c in counts <==> c in t
    requires forall c :: c in counts ==> counts[c] == Count(t, c)
    ensures forall c :: c in alpha <==> c in t
    ensures forall c :: c in alpha ==> alpha[c] == Less(t, c)
  {
    alpha := counts;
    var keys := Symbols(t);
    var total := 0;
    AccumulateStart(t, keys, counts);
    for i := 0 to |keys|
      invariant Accumulated(t, keys, i, alpha, total)
    {
      AccumulateStep(t, keys, i, alpha, total);
      var tmp := alpha[keys[i]];
      alpha := alpha[keys[i] := total];
      total := total + tmp;
    }
    AccumulateDone(t, keys, alpha, total);
  }

  /**
   * `alpha[t[k]] + count_table[k]` is a row index, and different rows map to
   * different rows: the LF-mapping is a permutation of the rows.
   */
  lemma LfPermutation(t: string)
    ensures forall k :: 0 <= k < |t| ==> Lf(t, k) < |t|
    ensures forall j, k :: 0 <= j < k < |t| ==> Lf(t, j) != Lf(t, k)
  {
    forall k | 0 <= k < |t|
      ensures Lf(t, k) < |t|
    {
      CountStep(t, k, t[k]);
      CountPrefixMonotone(t, k + 1, |t|, t[k]);
      assert t[..|t|] == t;
      LessCountBound(t, t[k]);
    }
    forall j, k | 0 <= j < k < |t|
      ensures Lf(t, j) != Lf(t, k)
    {
      var c, d := t[j], t[k];
      assert t[..|t|] == t;
      CountStep(t, j, c);
      CountPrefixMonotone(t, j + 1, k, c);
      CountPrefixMonotone(t, j + 1, |t|, c);
      CountStep(t, k, d);
      CountPrefixMonotone(t, k + 1, |t|, d);
      if c < d {
        LessCountBelow(t, c, d);
      } else if d < c {
        LessCountBelow(t, d, c);
      }
    }
  }
}
