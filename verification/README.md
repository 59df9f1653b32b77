# Burrows-Wheeler transforms, modelled in Dafny

This project models a small Python repository of Burrows-Wheeler transform
(BWT) implementations and proves what they compute:

- `isbwt.py`: the first stage of induced sorting (SA-IS) over an in-place
  suffix array. It tags every suffix S-type or L-type and collects the LMS
  (left-most S) positions. It then makes three bucket sweeps: the LMS
  positions go to their bucket ends, L-type positions are induced left to
  right, and S-type positions right to left. There is no recursive
  reduction step, so the result is not claimed to be sorted.
- `sabwt.py`: the suffix-array transform. It sorts suffix start positions,
  reads the symbol cyclically before each one, builds the rank tables
  (`count_alpha`) and inverts along the LF-mapping.
- `bwt.py`: the rotation-matrix transform of `s + '$'`, with the same rank
  tables and inverse.
- `bwts.py`: the bijective transform (BWTS). It takes Duval's Lyndon
  factorisation, lists the conjugates of every factor, sorts them and reads
  their last symbols. It then stably sorts the positions of the transform by
  symbol and reads a string along the cycles of that permutation.
- `mapping.py`: free-standing versions of the same steps, plus the
  periodic extension `expend_words`, the transform `bwts` and its inverse
  `ibwts`.

Code that appears twice in the repository is modelled once:

- `count_alpha` and `inverse` are identical in `sabwt.py` and `bwt.py`
  (`Ranks`, `SuffixArrayBwt.Invert`).
- `lf_duval`, `lf_conjugates` and `find_cycles` are identical in `bwts.py` and
  `mapping.py` (`Lyndon`, `Bijective.LfConjugates`, `Cycles.FindCycles`).
- The suffix-array expressions at `mapping.py:7-13` are
  `SuffixArrayBwt.CalcSuffixArray`, `LastIndex` and `Transform`.

Python semantics are written out:

- String order is `Lex`.
- `sorted` is a stable insertion sort (`Sorting.SortBy`). A stable sort's
  output is fixed by its input and keys, so this gives exactly what Python
  gives.
- `np.unique` is `Counting.Symbols` with `InducedSort.Counts`.
- `np.cumsum` is `InducedSort.CumSum`.
- A numpy negative index counts from the back (`InducedSort.Row`).
- An out-of-range index becomes the `IndexError` outcome.

Modules, one file each:

- `lex.dfy`: `Lex`
- `seqs.dfy`: `Seqs`
- `sorting.dfy`: `Sorting`
- `counting.dfy`: `Counting`
- `ranks.dfy`: `Ranks`
- `sabwt.dfy`: `SuffixArrayBwt`
- `bwt.dfy`: `MatrixBwt`
- `lyndon.dfy`: `Lyndon`
- `cycles.dfy`: `Cycles`
- `bijective.dfy`: `Bijective`
- `mapping.dfy`: `Mapping`
- `induced.dfy`: `InducedSort`

The `'$'` sentinel is smaller than every other symbol only because of its
code point. The model states this as a precondition where a property needs
it. The precondition is `SuffixArrayBwt.Sentinel` for the inverses and
`InducedSort.Sentinel` for induced sorting.

## Model

| member | source | states |
|---|---|---|
| Counting.Symbols | isbwt.py:7 | `np.unique(s)`: the distinct symbols of `s`, strictly ascending, exactly those occurring in `s` |
| InducedSort.Types | isbwt.py:12-13 | one tag per position |
| InducedSort.SuffixTypes | isbwt.py:11-25 | the tags are the S/L types (last position S; S iff smaller than the next symbol, or equal and the next is S); the LMS list is strictly ascending, holds exactly the positions `p >= 1` with an L before an S, and is `LmsFrom(s, 0)` |
| InducedSort.TagStep | isbwt.py:16-22 | one step of the right-to-left pass applies the tag rule and appends `i + 1` exactly when an L precedes an S |
| InducedSort.TagOne | isbwt.py:17-23 | one pass of the loop on the array of tags: position `i` gets its type, `i + 1` is recorded exactly when it is an LMS position, and the loop invariant moves one position left |
| InducedSort.TypeOrder | isbwt.py:17-20 | with a sentinel, position `i` is S-type exactly when its suffix sorts below the next suffix |
| InducedSort.SentinelLms | isbwt.py:21-22 | with a sentinel and `n >= 2`, the last position is an LMS position |
| InducedSort.LmsGap | isbwt.py:17-22 | two LMS positions are at least two apart |
| InducedSort.LmsFromList | isbwt.py:14-24 | `LmsFrom(s, p)` is strictly ascending and holds exactly the LMS positions at or after `p` |
| InducedSort.LmsListUnique | isbwt.py:14-24 | every strictly ascending list of exactly the LMS positions is `LmsFrom(s, 0)`, so the list `suffix_types` returns is fixed by `s` |
| InducedSort.GetSuffixes | isbwt.py:27-32 | `len(LMS) - 1` slices, the k-th running from `LMS[k]` to `LMS[k+1]` inclusive; none when there are no LMS positions |
| InducedSort.SlicesConcat | isbwt.py:27-32 | the slices without their last symbols concatenate to `s[LMS[0]:LMS[-1]]` |
| InducedSort.SuffixesChain | isbwt.py:27-32 | every slice has at least three symbols, each slice ends with the symbol the next one starts with, and the slices tile `s[LMS[0]:LMS[-1]]` |
| InducedSort.SumCounts | isbwt.py:37 | the counts of the symbols below the j-th add up to the number of positions holding a smaller symbol |
| InducedSort.BucketBounds | isbwt.py:48 | `cumsum - counter` is the first row of a symbol's bucket, `cumsum - 1` its last |
| InducedSort.BucketsDisjoint | isbwt.py:37 | every bucket lies within the rows, and the bucket of a smaller symbol ends before that of a larger one starts |
| InducedSort.LmsCountBound | isbwt.py:40-45 | the LMS positions of a symbol placed before the a-th are fewer than that symbol's occurrences |
| InducedSort.SlotsDescend | isbwt.py:40-45 | later LMS positions of the same symbol land at lower rows |
| InducedSort.PlaceStep | isbwt.py:41-45 | the head of the LMS position's symbol is its slot, inside its bucket; the write and the head decrement change only that row and that symbol's head |
| InducedSort.FilledEntries | isbwt.py:35-45 | once every LMS position is placed, every row holds `-1` or a position |
| InducedSort.Put | isbwt.py:42-45 | `SA[heads[i][0]] = v; heads[i] += d` for the mask `alphabet == c`: raises `IndexError` for an empty mask or a head outside `[-n, n)`; otherwise its result keeps one row per position and one head per symbol |
| InducedSort.StepPlace | isbwt.py:40-45 | one pass of the LMS loop; `IndexError` for a position past the end; a result keeps the table's shape |
| InducedSort.PlaceFrom | isbwt.py:40-45 | the LMS loop from the `a`-th LMS position on, raising where a pass raises; a result keeps the table's shape |
| InducedSort.StepPlaceWrites | isbwt.py:42-45 | a pass whose head is a row writes the LMS position at that row and moves the head one row up |
| InducedSort.PlaceFromPlaced | isbwt.py:40-45 | from any placement state the LMS loop never raises, and it ends with every LMS position at its slot and every other row `-1` |
| InducedSort.PlaceOne | isbwt.py:41-45 | one pass of the placement loop on the arrays leaves exactly the table `StepPlace` gives: the a-th LMS position at the back head of its bucket, that head one row up |
| InducedSort.PlaceLms | isbwt.py:37-45 | the loop does not raise and leaves exactly the rows of `PlaceFrom` from the back heads: every LMS position at its slot in its own bucket, every other row `-1` |
| InducedSort.SentinelBelow | isbwt.py:48 | with a sentinel, every other symbol's bucket starts at row 1 or later |
| InducedSort.SweepLStep | isbwt.py:52-56 | an L-type write lands inside the rows at the head of its own symbol, and only that head moves forward |
| InducedSort.StepAt | isbwt.py:51-56 | one row of a sweep with live reads: a positive entry whose predecessor has the sweep's tag writes that predecessor at its bucket's head; `IndexError` for an entry past `stypes` or a head off the array; a result keeps the table's shape (also `isbwt.py:62-67`) |
| InducedSort.StepAtWrites | isbwt.py:52-56 | a row with a tagged predecessor writes it at the head's row (from the back when negative) and moves the head one row (down for L, up for S), or raises when the head is off the array (also `isbwt.py:63-67`) |
| InducedSort.StepAtSkips | isbwt.py:52 | a row holding `-1`, `0` or a position whose predecessor has the other tag changes nothing (also `isbwt.py:63`) |
| InducedSort.SweepL | isbwt.py:47-56 | the L sweep over rows `x..n-1` left to right, each row read as the earlier rows left it; a result keeps the table's shape |
| InducedSort.SweepS | isbwt.py:58-67 | the S sweep over rows `k-1..0` right to left, each row read as the later rows left it; a result keeps the table's shape |
| InducedSort.StepLKeeps | isbwt.py:51-56 | one L row that does not raise keeps every row `-1` or a position, every front head at or past its bucket start, and a sentinel in row 0 |
| InducedSort.SweepLKeeps | isbwt.py:47-56 | if the L sweep does not raise, its result has every row `-1` or a position and keeps a sentinel in row 0 |
| InducedSort.InduceLRow | isbwt.py:51-56 | one row of the L sweep on the arrays leaves exactly what `StepAt` gives, and `ok` is false exactly when it raises |
| InducedSort.InduceL | isbwt.py:47-56 | the arrays end as `SweepL` from the front heads says, `ok` false exactly when it raises; on success every row is `-1` or a position and a sentinel `n - 1` in row 0 stays |
| InducedSort.Row | isbwt.py:65 | a numpy index in `[-n, n)` selects a row, counting from the back when negative |
| InducedSort.SweepSStep | isbwt.py:63-67 | an S-type write lands at the head of its own symbol, which stays at or before its bucket's last row; only that head moves back |
| InducedSort.StepSKeeps | isbwt.py:62-67 | one S row that does not raise keeps every row `-1` or a position and every back head at or before its bucket end, and names the first bucket whose head went above its first row if row 0 may have changed |
| InducedSort.SweepSKeeps | isbwt.py:58-67 | if the S sweep does not raise, every row is `-1` or a position, every back head is at or before its bucket end, and a sentinel in row 0 stays when no head ended more than one row above its bucket |
| InducedSort.InduceSRow | isbwt.py:62-67 | one row of the S sweep on the arrays leaves exactly what `StepAt` gives: `q - 1` at the back head of its bucket (from the back when negative), that head one row up, nothing for other rows; `ok` false exactly when it raises |
| InducedSort.InduceS | isbwt.py:58-67 | the array ends as `SweepS` from the back heads says, `ok` false exactly when it raises; on success every row is `-1` or a position, every head is at or before its bucket end, and row 0 keeps the sentinel unless a head ended more than one row above its bucket |
| InducedSort.InduceRun | isbwt.py:34-69 | the three loops of `induce_LMS` in order (LMS placement from the back heads, the L sweep from the front heads, the S sweep from the back heads), raising where a loop raises; a result has one row per position and one head per symbol, and its other properties are proved in `InduceRunFacts` |
| InducedSort.SentinelBucket | isbwt.py:37 | the sentinel's bucket is row 0 alone |
| InducedSort.SentinelSlot | isbwt.py:40-45 | after LMS placement, with a sentinel, row 0 holds `n - 1` |
| InducedSort.InduceRunFacts | isbwt.py:34-69 | on `s`'s own alphabet, counts, tags and LMS list the LMS loop never raises; if the sweeps do not raise, every row is `-1` or a position, and with the sentinel row 0 holds `n - 1` unless a head ended more than one row above its bucket |
| InducedSort.InduceLms | isbwt.py:34-69 | the result is the rows of `InduceRun` (the three loops in order), `IndexError` exactly when that raises; a result has length `n`, every entry `-1` or a position, and with a sentinel starts with `n - 1` (see Left out) |
| InducedSort.Create | isbwt.py:4-9 | the empty string raises `IndexError`; otherwise the object is built exactly when `InduceRun` does not raise, and its fields are the alphabet, the counts, the types, the LMS list `LmsFrom(s, 0)` and the rows of `InduceRun` |
| InducedSort.ValidRows | isbwt.py:4-9 | a valid object's LMS list is ascending and exact, and its `SA` has one row per position, each `-1` or a position |
| Sorting.SortBySorted | sabwt.py:12 | `sorted` returns its input ordered by key |
| Sorting.SortByTiesAscending | bwts.py:35 | sorting indices by key keeps equal keys in ascending index order (stability) |
| Sorting.SortedUnique | bwts.py:31 | two orderings by the same key of the same items with distinct keys are equal |
| Sorting.IncreasingUnique | isbwt.py:24 | two strictly increasing lists with the same items are the same list |
| SuffixArrayBwt.CalcSuffixArray | sabwt.py:11-12 | a permutation of `0..n-1` with strictly ascending suffixes (also `mapping.py:7-8`) |
| SuffixArrayBwt.LastIndex | sabwt.py:15-16 | every entry `(i + n - 1) % n` lies in `[0, n)` and is the position cyclically before `i` (also `mapping.py:10-11`) |
| SuffixArrayBwt.LastIndexPermutation | sabwt.py:15-16 | stepping back cyclically maps a permutation of `0..n-1` to another |
| SuffixArrayBwt.Transform | sabwt.py:14-17 | length `n`; row `k` holds the symbol before the suffix of row `k` (also `mapping.py:13`) |
| SuffixArrayBwt.TransformPermutes | sabwt.py:14-17 | the transform rearranges the symbols of `s` |
| SuffixArrayBwt.LfStep | sabwt.py:51 | with the sentinel, `alpha[t[k]] + count_table[k]` is the row of the suffix one position earlier |
| SuffixArrayBwt.SentinelFirst | sabwt.py:47-49 | with the sentinel, row 0 holds the sentinel suffix, where `inverse` starts |
| SuffixArrayBwt.InverseStep | sabwt.py:48-51 | one round prepends the symbol before the current suffix and moves to that suffix's row; `'$'` is read exactly at the whole string |
| SuffixArrayBwt.Invert | sabwt.py:44-52 | the LF walk from row 0 ends and returns exactly the sentinel-terminated string it came from |
| SuffixArrayBwt.Create | sabwt.py:5-9 | the fields are the suffix array, the transform and its rank tables |
| SuffixArrayBwt.Inverse | sabwt.py:44-52 | for input ending in a unique smallest `'$'`, `inverse` returns the input |
| Ranks.Tally | sabwt.py:20-26 | `count_table[k]` is the number of earlier equal symbols; the totals are the occurrence counts |
| Ranks.Accumulate | sabwt.py:27-31 | after the running sum, `alpha[c]` is the number of symbols smaller than `c`, with the same keys |
| Ranks.CountAlpha | sabwt.py:19-32 | the occurrence ranks, and `alpha` keyed by exactly the symbols of the transform with the number of smaller symbols |
| Ranks.LfFromTables | sabwt.py:51 | `alpha[t[k]] + count_table[k]` is row `k` of the LF-mapping |
| Ranks.LfPermutation | bwt.py:51 | the LF-mapping is a valid row index and injective, so a permutation of the rows |
| MatrixBwt.Matrix | bwt.py:8-14 | `len(s) + 1` rows, each of length `len(s) + 1`, a rearrangement of the rotations of `s + '$'`, sorted |
| MatrixBwt.CalcMatrix | bwt.py:8-14 | the loop appends every rotation and the sort orders them: the matrix |
| MatrixBwt.Transform | bwt.py:16-17 | one symbol per row |
| MatrixBwt.RotationLast | bwt.py:17 | the last symbol of a rotation is the symbol cyclically before its start |
| MatrixBwt.TransformPermutes | bwt.py:16-17 | the transform rearranges the symbols of `s + '$'` |
| MatrixBwt.MatrixIsSuffixArray | bwt.py:8-14 | with the sentinel, the sorted rotations are in suffix-array order |
| MatrixBwt.TransformAgrees | bwt.py:16-17 | when every symbol is above `'$'`, the matrix transform equals the suffix-array transform of `s + '$'` |
| MatrixBwt.Create | bwt.py:2-6 | the fields are the matrix, the transform and its rank tables |
| MatrixBwt.Inverse | bwt.py:44-52 | when every symbol is above `'$'`, `inverse` returns `s + '$'`, sentinel kept |
| Lyndon.Scan | bwts.py:11-16 | the inner scan ends with `i <= k < j <= len(s)` |
| Lyndon.ScanPeriodic | bwts.py:11-16 | the scanned part stays periodic with period `j - k` |
| Lyndon.ScanPass | bwts.py:9-16 | the inner scan stops where the scan from `i` stops, with `i <= k < j <= len(s)` and the scanned part periodic with period `j - k` |
| Lyndon.EmitPass | bwts.py:17-19 | the emitting loop moves `i` forward, and the factors so far followed by the factors from the new `i` are all factors |
| Lyndon.LfDuval | bwts.py:5-20 | the cursor loops emit the factorisation `Factors(s, 0)` (also `mapping.py:20-35`) |
| Lyndon.EmitStep | bwts.py:17-19 | each factor emitted in one pass is the same period word |
| Lyndon.Factorisation | bwts.py:5-20 | the factors concatenate back to `s`, and none is empty |
| Cycles.FindCycles | bwts.py:49-64 | for a permutation: the cycles list every index once, each follows the permutation back to its start, and they come last-discovered first (also `mapping.py:56-70`) |
| Cycles.ReverseCycles | bwts.py:64 | reversing the found list puts later discoveries first |
| Bijective.Conjugate | bwts.py:27 | `factor[-idx:] + factor[:-idx]` is a rotation `f[cut:] + f[:cut]` of the factor, the factor itself for `idx == 0`, ending with the symbol `idx` places before the end |
| Bijective.FactorConjugates | bwts.py:26-27 | exactly `len(f)` rotations per factor, in `idx` order |
| Bijective.AppendConjugates | bwts.py:26-27 | the inner loop appends exactly the conjugates of the factor, in `idx` order |
| Bijective.LfConjugates | bwts.py:22-28 | the nested loops return the conjugates of every Lyndon factor, factor by factor (also `mapping.py:38-44`) |
| Bijective.ConjugatesFacts | bwts.py:22-28 | `len(s)` conjugates, none empty, whose last symbols rearrange `s` |
| Bijective.SortedConjugates | bwts.py:31 | the sorted conjugates: same items, ascending, none empty |
| Bijective.Transform | bwts.py:30-31 | `transform`: the last symbols of the sorted conjugates, one per position of `s`; `TransformPermutes` proves it rearranges `s` |
| Bijective.TransformPermutes | bwts.py:30-31 | the transform has length `len(s)` and rearranges the symbols of `s` |
| Bijective.StableKeys | bwts.py:33-35 | a permutation of the positions ordered by symbol, ties in ascending position |
| Bijective.StableKeysOrder | bwts.py:33-35 | earlier keys hold smaller or equal symbols, and equal symbols keep ascending positions |
| Bijective.SortedKeys | bwts.py:33-35 | `sorted_keys`: a permutation of the positions of the transform, ordered by symbol with ties in ascending position |
| Bijective.ReadAlongGather | bwts.py:68 | indexing `s` by the concatenated cycles reads it along the cycles and rearranges its symbols |
| Bijective.Inverse | bwts.py:66-68 | the result is `s` read along the cycles of `sorted_keys`, a rearrangement of `s` |
| Mapping.ExpendWords | mapping.py:48-53 | the doubling loop returns the periodic expansion of `w` to length `l`, or `w` when it is already that long |
| Mapping.ExpandedPeriodic | mapping.py:48-53 | the expansion has length `max(len(w), l)`, starts with `w`, and repeats with period `len(w)` |
| Mapping.Bwts | mapping.py:73-76 | the final plain sort decides the order, so `bwts` equals the `bwts.py` transform |
| Mapping.Enumerate | mapping.py:80 | `enumerate(s)` pairs every position with its symbol |
| Mapping.PairKeys | mapping.py:80 | the positions of the pairs sorted by symbol, one per position of `s`; `PairKeysStable` proves it equals the stable symbol order `StableKeys(s)` |
| Mapping.PairKeysStable | mapping.py:80 | sorting the pairs by symbol and keeping positions is the stable sort of the positions by symbol |
| Mapping.JoinCycles | mapping.py:83 | joining the strings read along each cycle is reading `s` along the concatenated cycles |
| Mapping.Ibwts | mapping.py:79-83 | the result is `s` read along the cycles of its stable symbol order, a rearrangement of `s` |

## Left out

- `benchmark.py` is not part of this model. It is a command-line timing script with random input, plotting and JSON output.
- `generate_position` (`sabwt.py:34-42`, `bwt.py:34-42`) is left out. It assigns into an empty list, so it always raises `IndexError` and computes nothing.
- The `print` calls and demo blocks are left out: `isbwt.py:72-78` and `print(cycles)` at `mapping.py:82`.
- The module-level calls at `mapping.py:86-87` are left out.
- numpy is not modelled as a library. Its results are written as functions on sequences: `np.unique`, `np.cumsum`, boolean-mask head selection, negative indexing and the `|S1` tag array.
- InducedSort.InduceLms: `SA[0] == n - 1` under a sentinel is proved only when no S-type head ended more than one row above its bucket's first row. Without that condition it would need the SA-IS argument that every bucket receives at most as many induced positions as it has rows, which is not proved.
- InducedSort.InduceS: the model keeps the `IndexError` of a head that passes `-n`. It does not prove that this cannot happen.
- InducedSort.InduceL: the model keeps the `IndexError` of a head that passes the last row. It does not prove that this cannot happen.
- InducedSort.Create: the object is built exactly when `InduceRun` does not raise. That it never raises for a non-empty string needs the bucket-capacity argument above, which is not proved.
- The induced sweeps do not sort the suffixes in general. No sortedness of the `isbwt` result is claimed.
- Lyndon.Factorisation: the factors are proved to concatenate to `s` and to be non-empty. That every factor is a Lyndon word, and that the factors are non-increasing, is not proved.
- The BWTS round trip (`ibwts(bwts(s)) == s`) is not proved. `Bijective.Inverse` reads the object's own string along the cycles of its own transform's keys, as `bwts.py:66-68` does. It is modelled as written, not as an inverse.
- Mapping.ExpendWords requires a non-empty word when `l > 0`, because the source loops forever on an empty word. `Mapping.PeriodicKey` maps the empty word to itself; conjugates are never empty.
- Integers are unbounded. The numpy `int` array and the counters cannot overflow at any size the repository handles.
