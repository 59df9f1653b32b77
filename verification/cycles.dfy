/**
 * `find_cycles` (bwts.py:49-64, the same code as mapping.py:56-70): the cycle
 * decomposition of a permutation.  The values of the permutation are visited
 * in list order; each one not yet seen starts a new cycle, which is followed
 * until it closes.  The cycles come out in reverse order of discovery.
 */
module Cycles {
  import opened Seqs

  /** Position of the first occurrence of `v` in `p`, or `|p|` when there is none. */
  ghost function Index(p: seq<nat>, v: nat): (m: nat)
    ensures m <= |p| && v !in p[..m]
    ensures m < |p| <==> v in p
    ensures m < |p| ==> p[m] == v
  {
    if v in p then
      FirstOccurrence(p, v);
      var m :| 0 <= m < |p| && p[m] == v && v !in p[..m];
      m
    else
      assert p[..|p|] == p;
      |p|
  }

  lemma {:induction false} FirstOccurrence(p: seq<nat>, v: nat)
    requires v in p
    ensures exists m :: 0 <= m < |p| && p[m] == v && v !in p[..m]
  {
    if p[0] == v {
      assert p[..0] == [];
    } else {
      FirstOccurrence(p[1..], v);
      var m :| 0 <= m < |p[1..]| && p[1..][m] == v && v !in p[1..][..m];
      assert p[..m + 1] == [p[0]] + p[1..][..m];
    }
  }

  /** `c` follows `p` from its first element back to it: a cycle of `p`. */
  predicate Follows(p: seq<nat>, c: seq<nat>)
  {
    && |c| > 0
    && (forall t :: 0 <= t < |c| ==> c[t] < |p|)
    && (forall t :: 0 <= t < |c| - 1 ==> p[c[t]] == c[t + 1])
    && p[c[|c| - 1]] == c[0]
  }

  /**
   * `cycles` is the decomposition `find_cycles` returns for `p`: together
   * they list every index exactly once, each follows `p` around one cycle
   * from its first value in `p`, and they come last-discovered first.
   */
  ghost predicate CycleDecomposition(p: seq<nat>, cycles: seq<seq<nat>>)
  {
    && IsPermutation(Flatten(cycles), |p|)
    && (forall a :: 0 <= a < |cycles| ==> cycles[a] != [] && Follows(p, cycles[a]))
    && (forall a, x :: 0 <= a < |cycles| && x in cycles[a] ==> Index(p, cycles[a][0]) <= Index(p, x))
    && (forall a, b :: 0 <= a < b < |cycles| ==> Index(p, cycles[b][0]) < Index(p, cycles[a][0]))
  }

  /**
   * `find_cycles`: walk the values of `p` in order, skip those already
   * visited, follow each new one until the path closes, and return the
   * cycles last-found first.
   */
  method FindCycles(p: seq<nat>) returns (cycles: seq<seq<nat>>)
    requires IsPermutation(p, |p|)
    ensures CycleDecomposition(p, cycles)
  {
    PermutationFacts(p, |p|);
    var visited: set<nat> := {};
    var found: seq<seq<nat>> := [];
    for m := 0 to |p|
      invariant Found(p, m, found, visited)
    {
      var i := p[m];
      if i in visited {
        FoundSkip(p, m, found, visited);
        continue;
      }
      var path := [i];
      var j := p[i];
      WalkStart(p, m, found, visited);
      while i != j
        invariant Walking(p, i, path, j, visited)
        decreases |p| - |path|
      {
        WalkStep(p, i, path, j, visited);
        path := path + [j];
        j := p[j];
      }
      FoundAdd(p, m, found, visited, path);
      found := found + [path];
      visited := visited + Elems(path);
    }
    FoundDone(p, found, visited);
    cycles := Reverse(found);
  }

  /** Every value of `p` is an index of `p`, and no value repeats. */
  predicate Injective(p: seq<nat>)
  {
    && (forall q :: 0 <= q < |p| ==> p[q] < |p|)
    && Distinct(p)
  }

  /** Whatever `p` maps into `visited` is itself in `visited`. */
  predicate Closed(p: seq<nat>, visited: set<nat>)
  {
    forall z :: 0 <= z < |p| && p[z] in visited ==> z in visited
  }

  /** Each cycle was discovered before position `m`, at the first of its values in `p`, in increasing order. */
  ghost predicate Discovered(p: seq<nat>, m: nat, found: seq<seq<nat>>)
  {
    && (forall a :: 0 <= a < |found| ==> found[a] != [] && Index(p, found[a][0]) < m)
    && (forall a, x :: 0 <= a < |found| && x in found[a] ==> Index(p, found[a][0]) <= Index(p, x))
    && (forall a, b :: 0 <= a < b < |found| ==> Index(p, found[a][0]) < Index(p, found[b][0]))
  }

  /**
   * After the values `p[..m]` have been visited: the cycles found so far,
   * without repeats between or inside them, `visited` holding exactly their
   * elements, each cycle discovered at the first of its values in `p`.
   */
  ghost predicate Found(p: seq<nat>, m: nat, found: seq<seq<nat>>, visited: set<nat>)
  {
    && m <= |p|
    && Injective(p)
    && (forall a :: 0 <= a < |found| ==> Follows(p, found[a]))
    && Distinct(Flatten(found))
    && visited == Elems(Flatten(found))
    && Closed(p, visited)
    && (forall q :: 0 <= q < m ==> p[q] in visited)
    && Discovered(p, m, found)
  }

  /** While a new cycle is followed from `i`: the path so far, and `j` the next value. */
  ghost predicate Walking(p: seq<nat>, i: nat, path: seq<nat>, j: nat, visited: set<nat>)
  {
    && Injective(p)
    && |path| > 0 && path[0] == i
    && (forall t :: 0 <= t < |path| ==> path[t] < |p| && path[t] !in visited)
    && (forall t :: 0 <= t < |path| - 1 ==> p[path[t]] == path[t + 1])
    && Distinct(path)
    && j < |p| && j == p[path[|path| - 1]]
    && Closed(p, visited)
  }

  lemma WalkStep(p: seq<nat>, i: nat, path: seq<nat>, j: nat, visited: set<nat>)
    requires Walking(p, i, path, j, visited) && i != j
    ensures |path| < |p|
    ensures Walking(p, i, path + [j], p[j], visited)
  {
    var last := |path| - 1;
    forall t | 0 <= t < |path|
      ensures path[t] != j
    {
      if 0 < t {
        assert path[t - 1] != path[last];
        assert p[path[t - 1]] == path[t];
      }
    }
    assert path[last] !in visited;
    var path' := path + [j];
    assert path'[|path'| - 1] == j;
    DistinctBounded(path', |p|);
  }

  /** A closed walk from an unvisited `p[m]` is a new cycle, discovered at `m`. */
  lemma FoundAdd(p: seq<nat>, m: nat, found: seq<seq<nat>>, visited: set<nat>, path: seq<nat>)
    requires Found(p, m, found, visited) && m < |p|
    requires Walking(p, p[m], path, p[m], visited)
    ensures Found(p, m + 1, found + [path], visited + Elems(path))
  {
    AddFollows(p, found, path);
    AddDisjoint(found, visited, path);
    AddClosed(p, visited, path);
    AddDiscovered(p, m, found, visited, path);
    AddCovered(p, m, visited, path);
  }

  lemma AddFollows(p: seq<nat>, found: seq<seq<nat>>, path: seq<nat>)
    requires forall a :: 0 <= a < |found| ==> Follows(p, found[a])
    requires Follows(p, path)
    ensures forall a :: 0 <= a < |found + [path]| ==> Follows(p, (found + [path])[a])
  {
  }

  lemma AddCovered(p: seq<nat>, m: nat, visited: set<nat>, path: seq<nat>)
    requires m < |p| && path != [] && path[0] == p[m]
    requires forall q :: 0 <= q < m ==> p[q] in visited
    ensures forall q :: 0 <= q < m + 1 ==> p[q] in visited + Elems(path)
  {
    assert path[0] in Elems(path);
  }

  /** A path disjoint from what was visited keeps the concatenation free of repeats. */
  lemma AddDisjoint(found: seq<seq<nat>>, visited: set<nat>, path: seq<nat>)
    requires Distinct(Flatten(found)) && visited == Elems(Flatten(found))
    requires Distinct(path) && forall t :: 0 <= t < |path| ==> path[t] !in visited
    ensures Distinct(Flatten(found + [path]))
    ensures visited + Elems(path) == Elems(Flatten(found + [path]))
  {
    FlattenAppend(found, path);
    var f := Flatten(found);
    forall a, b | 0 <= a < b < |f + path|
      ensures (f + path)[a] != (f + path)[b]
    {
      if a < |f| && b >= |f| {
        assert f[a] in visited;
      }
    }
  }

  /** Adding a whole cycle keeps `visited` closed under taking preimages. */
  lemma AddClosed(p: seq<nat>, visited: set<nat>, path: seq<nat>)
    requires Injective(p) && Closed(p, visited) && Follows(p, path)
    ensures Closed(p, visited + Elems(path))
  {
    var last := |path| - 1;
    forall z | 0 <= z < |p| && p[z] in Elems(path)
      ensures z in Elems(path)
    {
      var t :| 0 <= t < |path| && path[t] == p[z];
      if t == 0 {
        assert p[path[last]] == p[z];
      } else {
        assert p[path[t - 1]] == p[z];
      }
    }
  }

  /** The new cycle starts at `p[m]`, the first of its values in `p`. */
  lemma AddDiscovered(p: seq<nat>, m: nat, found: seq<seq<nat>>, visited: set<nat>, path: seq<nat>)
    requires Injective(p) && m < |p| && Discovered(p, m, found)
    requires forall q :: 0 <= q < m ==> p[q] in visited
    requires path != [] && path[0] == p[m] && forall t :: 0 <= t < |path| ==> path[t] !in visited
    ensures Discovered(p, m + 1, found + [path])
  {
    var found' := found + [path];
    assert found'[|found|] == path;
    assert Index(p, p[m]) == m by {
      var q := Index(p, p[m]);
      assert q < |p| && p[q] == p[m];
    }
    forall x | x in path
      ensures m <= Index(p, x)
    {
      assert x !in visited;
    }
  }

  lemma FoundSkip(p: seq<nat>, m: nat, found: seq<seq<nat>>, visited: set<nat>)
    requires Found(p, m, found, visited) && m < |p| && p[m] in visited
    ensures Found(p, m + 1, found, visited)
  {
  }

  lemma WalkStart(p: seq<nat>, m: nat, found: seq<seq<nat>>, visited: set<nat>)
    requires Found(p, m, found, visited) && m < |p| && p[m] !in visited
    ensures Walking(p, p[m], [p[m]], p[p[m]], visited)
  {
  }

  /**
   * Once every value has been visited, the cycles found, taken last-found
   * first, cover each index exactly once, and each starts at the first of its
   * values in `p`.
   */
  lemma FoundDone(p: seq<nat>, found: seq<seq<nat>>, visited: set<nat>)
    requires IsPermutation(p, |p|) && Found(p, |p|, found, visited)
    ensures CycleDecomposition(p, Reverse(found))
  {
    FoundCover(p, found, visited);
    FlattenReverse(found);
    ReverseCycles(p, found);
  }

  lemma ReverseCycles(p: seq<nat>, found: seq<seq<nat>>)
    requires forall a :: 0 <= a < |found| ==> Follows(p, found[a])
    requires Discovered(p, |p|, found)
    ensures var cycles := Reverse(found);
      && (forall a :: 0 <= a < |cycles| ==> cycles[a] != [] && Follows(p, cycles[a]))
      && (forall a, x :: 0 <= a < |cycles| && x in cycles[a] ==> Index(p, cycles[a][0]) <= Index(p, x))
      && (forall a, b :: 0 <= a < b < |cycles| ==> Index(p, cycles[b][0]) < Index(p, cycles[a][0]))
  {
    var cycles := Reverse(found);
    var n := |found|;
    forall a | 0 <= a < n
      ensures cycles[a] != [] && Follows(p, cycles[a])
    {
      assert cycles[a] == found[n - 1 - a];
    }
    forall a, x | 0 <= a < n && x in cycles[a]
      ensures Index(p, cycles[a][0]) <= Index(p, x)
    {
      assert cycles[a] == found[n - 1 - a];
    }
    forall a, b | 0 <= a < b < n
      ensures Index(p, cycles[b][0]) < Index(p, cycles[a][0])
    {
      assert cycles[a] == found[n - 1 - a] && cycles[b] == found[n - 1 - b];
    }
  }

  /** Once every value has been visited, the cycles found cover each index exactly once. */
  lemma FoundCover(p: seq<nat>, found: seq<seq<nat>>, visited: set<nat>)
    requires IsPermutation(p, |p|) && Found(p, |p|, found, visited)
    ensures IsPermutation(Flatten(found), |p|)
  {
    var f := Flatten(found);
    forall k | 0 <= k < |f|
      ensures f[k] < |p|
    {
      CycleMemberBound(p, found, f[k]);
    }
    forall x | 0 <= x < |p|
      ensures x in f
    {
      PermutationValue(p, x);
    }
    DistinctCoverPermutation(f, |p|);
  }

  lemma CycleMemberBound(p: seq<nat>, found: seq<seq<nat>>, x: nat)
    requires forall a :: 0 <= a < |found| ==> Follows(p, found[a])
    requires x in Flatten(found)
    ensures x < |p|
  {
    FlattenMember(found, x);
    var a :| 0 <= a < |found| && x in found[a];
    var t :| 0 <= t < |found[a]| && found[a][t] == x;
  }

  lemma PermutationValue(p: seq<nat>, x: nat)
    requires IsPermutation(p, |p|) && x < |p|
    ensures exists q :: 0 <= q < |p| && p[q] == x
  {
    PermutationFacts(p, |p|);
    assert x in p;
  }
}
