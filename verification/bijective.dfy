/**
 * The bijective Burrows-Wheeler transform of bwts.py: split the input into
 * Lyndon factors, list every conjugate (rotation) of every factor, sort the
 * conjugates and read their last symbols.  `sorted_keys` stably sorts the
 * positions of the transform by symbol, and `inverse` reads the input along
 * the cycles of that permutation.
 */
module Bijective {
  import opened Lex
  import opened Seqs
  import opened Sorting
  import opened Lyndon
  import opened Cycles
  import MatrixBwt

  /**
   * `factor[-idx:] + factor[:-idx]`.  Python reads `-0` as `0`, so for
   * `idx == 0` this is the factor followed by the empty string; otherwise it
   * is the rotation that starts `idx` symbols before the end.
   */
  function Conjugate(f: string, idx: nat): (r: string)
    requires idx < |f|
    ensures |r| == |f| && multiset(r) == multiset(f)
    ensures idx == 0 ==> r == f
    ensures r[|f| - 1] == f[|f| - 1 - idx]
    ensures exists cut :: 0 <= cut <= |f| && r == f[cut..] + f[..cut]
  {
    var cut := if idx == 0 then 0 else |f| - idx;
    assert f == f[..cut] + f[cut..];
    f[cut..] + f[..cut]
  }

  /** The conjugates the inner loop of `lf_conjugates` emits for one factor, `idx` ascending. */
  function FactorConjugates(f: string): (r: seq<string>)
    ensures |r| == |f|
    ensures forall idx :: 0 <= idx < |f| ==> r[idx] == Conjugate(f, idx)
  {
    seq(|f|, idx requires 0 <= idx < |f| => Conjugate(f, idx))
  }

  /** What `lf_conjugates` returns: the conjugates of every Lyndon factor, factor by factor. */
  function Conjugates(s: string): seq<string>
  {
    Flatten(MapSeq(Factors(s, 0), FactorConjugates))
  }

  /** `lf_conjugates`: one pass over the factors, one inner pass over each factor's positions. */
  method LfConjugates(s: string) returns (ret: seq<string>)
    ensures ret == Conjugates(s)
  {
    var factors := LfDuval(s);
    ret := [];
    for a := 0 to |factors|
      invariant ret == Flatten(MapSeq(factors[..a], FactorConjugates))
    {
      ret := AppendConjugates(ret, factors[a]);
      ConjugatesStep(factors, a);
    }
    assert factors[..|factors|] == factors;
  }

  /** The inner loop of `lf_conjugates`: append the conjugates of one factor, `idx` ascending. */
  method AppendConjugates(ret: seq<string>, factor: string) returns (ret': seq<string>)
    ensures ret' == ret + FactorConjugates(factor)
  {
    ret' := ret;
    for idx := 0 to |factor|
      invariant ret' == ret + FactorConjugates(factor)[..idx]
    {
      ret' := ret' + [Conjugate(factor, idx)];
    }
    assert FactorConjugates(factor)[..|factor|] == FactorConjugates(factor);
  }

  lemma ConjugatesStep(factors: seq<string>, a: nat)
    requires a < |factors|
    ensures Flatten(MapSeq(factors[..a + 1], FactorConjugates))
      == Flatten(MapSeq(factors[..a], FactorConjugates)) + FactorConjugates(factors[a])
  {
    assert MapSeq(factors[..a + 1], FactorConjugates) == MapSeq(factors[..a], FactorConjugates) + [FactorConjugates(factors[a])];
    FlattenAppend(MapSeq(factors[..a], FactorConjugates), FactorConjugates(factors[a]));
  }

  /** The last symbol of a non-empty string (`x[-1]`); never applied to an empty one. */
  function Last(w: string): char
  {
    if |w| > 0 then w[|w| - 1] else ' '
  }

  /** The last symbols of a factor's conjugates, `idx` ascending, are the factor reversed. */
  lemma FactorLastSymbols(f: string)
    ensures forall c :: c in FactorConjugates(f) ==> |c| > 0
    ensures multiset(MapSeq(FactorConjugates(f), Last)) == multiset(f)
  {
    assert MapSeq(FactorConjugates(f), Last) == Reverse(f);
    ReverseMultiset(f);
  }

  lemma ConjugatesSplit(fs: seq<string>)
    requires fs != []
    ensures Flatten(MapSeq(fs, FactorConjugates))
      == Flatten(MapSeq(fs[..|fs| - 1], FactorConjugates)) + FactorConjugates(fs[|fs| - 1])
  {
    assert MapSeq(fs, FactorConjugates) == MapSeq(fs[..|fs| - 1], FactorConjugates) + [FactorConjugates(fs[|fs| - 1])];
    FlattenAppend(MapSeq(fs[..|fs| - 1], FactorConjugates), FactorConjugates(fs[|fs| - 1]));
  }

  /** Over a list of factors: one conjugate per symbol, none of them empty. */
  lemma {:induction false} ConjugatesOfFactors(fs: seq<string>)
    ensures |Flatten(MapSeq(fs, FactorConjugates))| == |Flatten(fs)|
    ensures forall c :: c in Flatten(MapSeq(fs, FactorConjugates)) ==> |c| > 0
  {
    if fs != [] {
      var init := fs[..|fs| - 1];
      ConjugatesOfFactors(init);
      ConjugatesSplit(fs);
      FactorLastSymbols(fs[|fs| - 1]);
    }
  }

  /** Over a list of factors: the last symbols of the conjugates rearrange the factors' symbols. */
  lemma {:induction false} LastSymbolsOfFactors(fs: seq<string>)
    ensures multiset(MapSeq(Flatten(MapSeq(fs, FactorConjugates)), Last)) == multiset(Flatten(fs))
  {
    if fs != [] {
      var init := fs[..|fs| - 1];
      var f := fs[|fs| - 1];
      LastSymbolsOfFactors(init);
      ConjugatesSplit(fs);
      MapSeqAppend(Flatten(MapSeq(init, FactorConjugates)), FactorConjugates(f), Last);
      FactorLastSymbols(f);
    }
  }

  /** `lf_conjugates` returns `len(s)` non-empty conjugates whose last symbols rearrange `s`. */
  lemma ConjugatesFacts(s: string)
    ensures |Conjugates(s)| == |s|
    ensures forall c :: c in Conjugates(s) ==> |c| > 0
    ensures multiset(MapSeq(Conjugates(s), Last)) == multiset(s)
  {
    Factorisation(s);
    ConjugatesOfFactors(Factors(s, 0));
    LastSymbolsOfFactors(Factors(s, 0));
  }

  /** The sorted conjugates of `s`, as `transform` sorts them. */
  function SortedConjugates(s: string): (m: seq<string>)
    ensures |m| == |s|
    ensures forall k :: 0 <= k < |m| ==> |m[k]| > 0
    ensures multiset(m) == multiset(Conjugates(s))
    ensures SortedBy(m, Id)
  {
    ConjugatesFacts(s);
    SortBySorted(Conjugates(s), Id);
    var m := SortBy(Conjugates(s), Id);
    assert forall k :: 0 <= k < |m| ==> m[k] in multiset(Conjugates(s));
    m
  }

  /** `transform`: the last symbols of the sorted conjugates. */
  function Transform(s: string): (t: string)
    ensures |t| == |s|
  {
    MatrixBwt.Transform(SortedConjugates(s))
  }

  /** The bijective transform rearranges the symbols of `s`. */
  lemma TransformPermutes(s: string)
    ensures |Transform(s)| == |s|
    ensures multiset(Transform(s)) == multiset(s)
  {
    ConjugatesFacts(s);
    var m := SortedConjugates(s);
    MapSeqMultiset(m, Conjugates(s), Last);
    assert MapSeq(m, Last) == Transform(s);
  }

  /** `transformed.__getitem__` as a sort key: the one-symbol string at `i`. */
  function SymbolKey(t: string): nat -> string
  {
    (i: nat) => if i < |t| then t[i..i + 1] else ""
  }

  /**
   * `sorted(range(len(t)), key=t.__getitem__)`: the positions of `t` in
   * stable order of their symbols.
   */
  function StableKeys(t: string): (keys: seq<nat>)
    ensures IsPermutation(keys, |t|)
    ensures SortedBy(keys, SymbolKey(t)) && TiesAscending(keys, SymbolKey(t))
  {
    SortBySorted(Range(|t|), SymbolKey(t));
    SortByTiesAscending(Range(|t|), SymbolKey(t));
    SortBy(Range(|t|), SymbolKey(t))
  }

  /**
   * In the stable keys, earlier positions hold smaller or equal symbols, and
   * positions with equal symbols keep ascending order.
   */
  lemma StableKeysOrder(t: string, a: nat, b: nat)
    requires a < b < |t|
    ensures var keys := StableKeys(t);
      && keys[a] < |t| && keys[b] < |t|
      && t[keys[a]] <= t[keys[b]]
      && (t[keys[a]] == t[keys[b]] ==> keys[a] < keys[b])
  {
    var keys := StableKeys(t);
    var key := SymbolKey(t);
    PermutationFacts(keys, |t|);
    assert LexLe(key(keys[a]), key(keys[b]));
    assert key(keys[a]) == [t[keys[a]]] && key(keys[b]) == [t[keys[b]]];
  }

  /** `sorted_keys`: the stable symbol order of the positions of the transform. */
  function SortedKeys(s: string): (keys: seq<nat>)
    ensures IsPermutation(keys, |s|)
    ensures SortedBy(keys, SymbolKey(Transform(s))) && TiesAscending(keys, SymbolKey(Transform(s)))
  {
    StableKeys(Transform(s))
  }

  /**
   * `r` is `s` read along the concatenated cycles of `p`, as `find_cycles`
   * lists them.
   */
  ghost predicate ReadAlongCycles(s: string, p: seq<nat>, r: string)
  {
    exists cycles :: ReadAlong(s, p, cycles, r)
  }

  ghost predicate ReadAlong(s: string, p: seq<nat>, cycles: seq<seq<nat>>, r: string)
  {
    && CycleDecomposition(p, cycles)
    && var order: seq<nat> := Flatten<nat>(cycles);
      && |r| == |order|
      && (forall k :: 0 <= k < |r| ==> order[k] < |s| && r[k] == s[order[k]])
  }

  /**
   * `inverse`: the cycles of `sorted_keys`, concatenated, used as positions
   * into the object's own string `s`.
   */
  method Inverse(s: string) returns (r: string)
    ensures ReadAlongCycles(s, SortedKeys(s), r)
    ensures multiset(r) == multiset(s)
  {
    TransformPermutes(s);
    var keys := SortedKeys(s);
    var cycles := FindCycles(keys);
    ReadAlongGather(s, keys, cycles);
    r := Gather(s, Flatten<nat>(cycles));
  }

  lemma ReadAlongGather(s: string, p: seq<nat>, cycles: seq<seq<nat>>)
    requires |p| == |s| && CycleDecomposition(p, cycles)
    ensures forall k :: 0 <= k < |Flatten<nat>(cycles)| ==> Flatten<nat>(cycles)[k] < |s|
    ensures ReadAlongCycles(s, p, Gather(s, Flatten<nat>(cycles)))
    ensures multiset(Gather(s, Flatten<nat>(cycles))) == multiset(s)
  {
    var order: seq<nat> := Flatten<nat>(cycles);
    GatherPermutation(s, order);
    assert ReadAlong(s, p, cycles, Gather(s, order));
  }
}
