# A Dafny model of the SlimTrie benchmark harness

The Go package `trie/benchmark` measures a succinct index, SlimTrie. It measures
three things: how long a lookup takes, how many bits each key costs, and how often
the trie reports an absent key as present (the false-positive rate, FPR). It also
compares lookup time against a Go map, a sorted array and a B-tree. This project
models the bookkeeping around those measurements and proves properties of it:

- the key space: `2*cnt` sorted strings split by parity into present and absent
  keys, with values `int32(i)`;
- the workload generator: `maxMask`, the scan and zipf access sequences, and
  indexing by `i & mask`;
- the lookup adapters: `slimKV.Get`, which rejects the trie's false positives
  with a side table; the map read; the binary search of `sortedArraySearch`
  with its own lower-bound loop standing in for `sort.Search`; and `KVElt.Less`;
- the FPR counting loop, the bits-per-key arithmetic of `slimtrieMem`, and the
  four loops that build one result row per key count.

Modules, one per component:

| file | module | component |
|---|---|---|
| errors.dfy | `Errors` | `Option`, `Result`, and the panics of the harness that the model tracks |
| go_ints.dfy | `GoInts` | Go's `int32`/`int64` wrap-around and truncating division |
| strings.dfy | `Strings` | `strings.Compare`, `<` on strings, sortedness |
| workload.dfy | `Workload` | `maxMask`, `&`, `accessesScan`, `accessesZipf`, `newWorkLoad` |
| adapters.dfy | `Adapters` | `KVElt`, `slimKV.Get`, the map read, `sortedArraySearch` |
| key_space.dfy | `KeySpace` | `makeKVElts`, `NewGetSetting`, `GetSetting` |
| runner.dfy | `Runner` | the untimed set-up of `benchGet` |
| aggregators.dfy | `Aggregators` | `slimtrieMem`, the FPR loop, `BenchGet`, `Mem`, `GetMapSlimArrayBtree`, `GetFPR` |

Some collaborators are foreign. They enter the model as parameters:

- the random sorted-string generator: its output sequence, assumed strictly sorted;
- `rand.Int63n`: the number it draws;
- the SlimTrie: its lookup function `string -> Option<int>`, or its membership test;
- `zipf.Accesses`: a function `(n, times) -> seq<int>`;
- `testing.Benchmark`: the measured ns/op of each configuration, and the largest
  `b.N` its timed loop runs with;
- `size.Of`: the byte size of each configuration's trie.

Four of the Go panics are modelled as `Failure` results:

- an unknown workload gives `UnknownWorkload`;
- `rand.Int63n(0)` in `NewGetSetting` gives `EmptyKeySpace`;
- integer division by a zero key count in `slimtrieMem` gives `DivisionByZero`;
- a timed loop that reads `keys[n]` or `Values[n]` of n entries gives
  `IndexOutOfRange(n, n)` (see "## Findings").

The panics on a SlimTrie construction error (trie/benchmark/benchmark.go:105, 158,
317) and on an out-of-range position reported by the trie (line 383) are not
modelled; "## Left out" says why.

The access sequence is meant to hold only indices in `[0, n)`. For that, its mask
would be the largest `2^k - 1` that is at most `n - 1`. The code compares with `n`
instead (`(mask<<1 | 1) <= n`). The model follows the code, and the difference is
recorded under "## Findings".

## Model

| member | source | states |
|---|---|---|
| `GoInts.Int32` | trie/benchmark/benchmark.go:310 | `int32(i)` is the unique value in [-2^31, 2^31) congruent to i modulo 2^32; it is i itself for 0 <= i < 2^31 |
| `GoInts.Int64` | trie/benchmark/benchmark.go:163 | the int64 product is the unique value in [-2^63, 2^63) congruent to the exact product modulo 2^64 |
| `GoInts.Quot` | trie/benchmark/benchmark.go:163 | Go's `/`: the remainder `a - q*b` is smaller than the divisor in magnitude and has the sign of the dividend (truncation toward zero) |
| `Strings.Compare` | trie/benchmark/benchmark.go:285 | `strings.Compare` yields -1, 0 or 1, and 0 only for strings of equal length |
| `Strings.CompareZeroIff` | trie/benchmark/benchmark.go:289 | `strings.Compare(a, b) == 0` exactly when a == b, so the exact-match test of `sortedArraySearch` is string equality |
| `Strings.CompareFlip` | trie/benchmark/benchmark.go:285 | swapping the arguments of `strings.Compare` negates the result |
| `Strings.CompareTrans` | trie/benchmark/benchmark.go:282-287 | `<=` under `strings.Compare` is transitive, which makes the predicate of `sort.Search` monotone on sorted keys |
| `Strings.LessStrictTotalOrder` | trie/benchmark/benchmark.go:431 | `<` on strings is irreflexive and transitive, and exactly one of a < b, b < a holds for distinct strings |
| `Strings.StrictlySortedIsSorted` | trie/benchmark/benchmark.go:298 | a strictly sorted key list is sorted and free of duplicates |
| `Workload.MaxMaskSpec` | trie/benchmark/benchmark.go:391-396 | maxMask(n) is 2^k - 1 for some k >= 1, at least 1, at most n when n >= 1, and n < 2*maxMask(n) + 1 |
| `Workload.MaxMaskIsLargest` | trie/benchmark/benchmark.go:391-396 | no 2^k - 1 with k >= 1 that is at most n exceeds maxMask(n) |
| `Workload.MaxMaskExamples` | trie/benchmark/benchmark.go:391-396 | maxMask gives 1 for 0 and 1, 7 for 7 and 8, 15 for 16, and 63 for 100 |
| `Workload.MaxMask` | trie/benchmark/benchmark.go:391-396 | the shifting loop returns the reference value `MaxMaskSpec(n)` |
| `Workload.BitAndLowMask` | trie/benchmark/benchmark.go:186 | for a mask m = 2^k - 1, `i & m` equals `i % (m + 1)` |
| `Workload.MaskedIndexInRange` | trie/benchmark/benchmark.go:178-186 | the access sequence length maxMask(n) + 1 is a power of two, and `i & maxMask(n)` is `i % (maxMask(n) + 1)`, a valid position in it, for every i >= 0 |
| `Workload.AccessesScan` | trie/benchmark/benchmark.go:413-420 | the scan sequence has length maxMask(n) + 1 and holds i at position i |
| `Workload.AccessesZipf` | trie/benchmark/benchmark.go:408-411 | the zipf sequence is the sampler's output for n keys and maxMask(n) + 1 samples |
| `Workload.NewWorkLoad` | trie/benchmark/benchmark.go:398-406 | "zipf" gives the zipf sequence, "scan" gives 0..maxMask(n), and any other name fails with `UnknownWorkload`, with no fallback |
| `Workload.MaskedIndex` | trie/benchmark/benchmark.go:186 | the key position read at iteration i of a scan run is `i % (maxMask(n) + 1)` and at most maxMask(n) |
| `Workload.MaxMaskOfMask` | trie/benchmark/benchmark.go:391-396 | a key count of the form 2^k - 1 is its own maxMask |
| `Workload.ScanOverrunsKeys` | trie/benchmark/benchmark.go:178-186 | for n = 2^k - 1 keys, iteration i = n of a scan run reads key position n, one past the last key |
| `Workload.ScanOverrunsSevenKeys` | trie/benchmark/benchmark.go:178-186 | with 7 keys, iteration 7 of a scan run reads key position 7 |
| `Workload.KeyMask` | trie/benchmark/benchmark.go:178 | the intended mask is 2^k - 1 (k >= 0) below n and is the largest such value: m < n <= 2m + 1 |
| `Workload.KeyMaskIndexInRange` | trie/benchmark/benchmark.go:186 | with the intended mask, `i & mask` is a valid key position for every i >= 0 |
| `Workload.KeyMaskAgrees` | trie/benchmark/benchmark.go:178 | for n >= 2 the intended mask equals maxMask(n) exactly when maxMask(n) < n |
| `Workload.LoopOverrunsIff` | trie/benchmark/benchmark.go:183-187 | a timed loop of b.N rounds over n >= 1 entries reads a masked position that is not below n exactly when maxMask(n) == n and b.N > n |
| `Workload.LoopOverrunsAtMasks` | trie/benchmark/benchmark.go:178-186 | that overrun happens exactly for key counts n = 2^k - 1 (k >= 1), once the loop runs more than n rounds |
| `Adapters.KVEltLessOrder` | trie/benchmark/benchmark.go:429-432 | `KVElt.Less` is a strict weak order by key, as the B-tree needs: irreflexive, transitive, total on distinct keys, and elements with equal keys are equivalent |
| `Adapters.SlimKV.Get` | trie/benchmark/benchmark.go:377-389 | no candidate from the trie gives -1; a candidate whose key differs from the query gives -1; a candidate whose key matches gives its value; so a result other than -1 is the value of a side-table element with the query's key, and a key absent from the side table gives -1 |
| `Adapters.SearchLowerBound` | trie/benchmark/benchmark.go:282-287 | `sort.Search` on sorted keys returns the first position whose key is not below the search key: every key before it is below, every key from it on is not |
| `Adapters.SortedArraySearch` | trie/benchmark/benchmark.go:278-294 | on sorted keys, a present key yields the value at its first occurrence, an absent key yields -1, and on strictly sorted keys the value at the key's only position |
| `KeySpace.MakeKVElts` | trie/benchmark/benchmark.go:434-440 | the elements pair keys[i] with vals[i], one per key, in order |
| `KeySpace.SplitKeepsOrder` | trie/benchmark/benchmark.go:298-306 | the even and odd halves of a strictly sorted sequence are each strictly sorted, and they share no string |
| `KeySpace.SplitByParity` | trie/benchmark/benchmark.go:300-306 | Keys[i] = ks[2i] and AbsentKeys[i] = ks[2i+1], each of length cnt |
| `KeySpace.PositionValues` | trie/benchmark/benchmark.go:308-311 | vals[i] = int32(i), which is i when cnt <= 2^31 |
| `KeySpace.BuildMap` | trie/benchmark/benchmark.go:321-324 | the map's keys are the present keys, and each maps to the value at its position |
| `KeySpace.NewGetSetting` | trie/benchmark/benchmark.go:296-353 | fails exactly when cnt is 0; otherwise the setting holds the parity split, the values int32(i), the side table and map over the present keys, and the search key and value at the drawn position; both key lists are strictly sorted and disjoint |
| `KeySpace.PresentKeysFound` | trie/benchmark/benchmark.go:377-389 | if the trie has no false negatives, the SlimTrie adapter and the map read `m[key]` (line 250, modelled by `MapGet`) return i for present key i |
| `KeySpace.ArrayLookup` | trie/benchmark/benchmark.go:268 | the array adapter over a setting returns Values[i] for the key at position i and -1 for a key not present |
| `KeySpace.AbsentKeysRejected` | trie/benchmark/benchmark.go:377-389 | for a trie whose candidates are side-table positions, every absent key is not present, the SlimTrie adapter returns -1 for it, and the map returns 0 |
| `Runner.PrepareBench` | trie/benchmark/benchmark.go:166-179 | "present" selects Keys and any other type AbsentKeys; the mask is maxMask(len(keys)); an unknown workload fails; a scan run reads key position `i % (mask+1)` at iteration i |
| `Aggregators.BitsPerKey` | trie/benchmark/benchmark.go:152-164 | fails exactly when the key count is 0; otherwise, while sz*8 fits in int64, the result r is the floor quotient: r*keyCnt <= sz*8 < (r+1)*keyCnt |
| `Aggregators.BitsPerKeyAtLeastEight` | trie/benchmark/benchmark.go:163 | a trie at least one byte per key large costs at least 8 bits per key |
| `Aggregators.CountFalsePositives` | trie/benchmark/benchmark.go:108-121 | the loop stops after exactly nAbsent accepted candidates; present keys are skipped without being counted; its last draw is accepted; fp is the number of found candidates among those accepted, so 0 <= fp <= nAbsent |
| `Aggregators.SetUp` | trie/benchmark/benchmark.go:166-179 | the untimed set-up of one configuration, `NewGetSetting` then benchGet's choice of keys and workload, fails exactly with `ConfigError`: no keys, then an unknown workload; otherwise it times n keys with mask maxMask(n) |
| `Aggregators.BenchGet` | trie/benchmark/benchmark.go:66-83 | one row per key count, in order, holding the count and the ns/op of key lengths 64, 128 and 256, exactly when no key count fails; a key count fails on no keys, an unknown workload, or a scan run that reads `keys[n]` (trie/benchmark/benchmark.go:186); otherwise the first failing key count's error |
| `Aggregators.GetMapSlimArrayBtree` | trie/benchmark/benchmark.go:196-216 | one row per key count, in order, holding the ns/op of the map, SlimTrie, array and B-tree, exactly when no key count fails; a key count fails on no keys, an unknown workload, the B-tree loop reading `Values[n]` under any workload (line 258), or a scan run reading `keys[n]` (lines 242-268); otherwise the first failing key count's error |
| `Aggregators.OverrunExamples` | trie/benchmark/benchmark.go:239-271 | with 7 keys and loops of more than 7 rounds, both a scan and a zipf run fail with `IndexOutOfRange(7, 7)`; with 8 keys a zipf run does not fail |
| `Aggregators.Mem` | trie/benchmark/benchmark.go:136-150 | one row per key count, in order, holding sz*8/keyCnt for key lengths 64, 128 and 256; a zero key count fails with a division by zero |
| `Aggregators.GetFPR` | trie/benchmark/benchmark.go:86-134 | one row per key count, in order, with n*100 samples, at most that many false positives, and the count taken over the first n*100 non-key candidates of the stream |
| `Aggregators.RateInUnitInterval` | trie/benchmark/benchmark.go:123 | the rate fp / nAbsent lies in [0, 1] |

## Left out

- Timing: `testing.Benchmark` and `NsPerOp` (trie/benchmark/benchmark.go:183-193, 239-271) are wall-clock measurement. The aggregators take the measured ns/op and the largest `b.N` of each timed loop, and the byte size from `size.Of`, as parameters indexed by row position: every row is a run of its own over freshly generated keys, so two rows with the same key count may differ. Of the timed loops, only the positions they read are modelled.
- The sinks `Rec`, `rec`, `v` and `OutputMSAB` only stop the compiler from removing the lookups. They carry no meaning.
- SlimTrie: `trie.NewSlimTrie` and the trie's internals are a foreign library. The trie enters only as its lookup or membership function. Its construction is assumed to succeed on the sorted input it gets, so the panic on a construction error is not modelled.
- google/btree: building the tree and the tree adapter's `Get` (trie/benchmark/benchmark.go:255-263, 327-331) are a foreign library. Only `KVElt.Less` is modelled.
- `zipf.Accesses`, `size.Of`, `benchhelper.RandSortedStrings` and `benchhelper.RandString` are foreign and random. Their results are parameters. So is the time-seeded `rand.Int63n` draw of the search key.
- The float division `fp / float64(nAbsent)` is not modelled. FPR rows keep the two integer counts; `RateInUnitInterval` states the rate over the reals.
- `Aggregators.BenchGet`: the `typ` argument only chooses which keys are timed. Its effect is modelled in `Runner.PrepareBench`, not in the rows.
- `KeySpace.NewGetSetting`: the B-tree field of `GetSetting` is not part of the model.
- `Workload.MaxMask`: it uses unbounded integers. Go's 64-bit `mask<<1 | 1` would overflow and loop forever only for n = 2^63 - 1, which is not a reachable slice length.
- `Aggregators.BitsPerKey`: it takes the key count as a natural number. The model assumes that callers never pass a negative key count. The generator's code is not part of this model, so what it does with one is not known here.
- Key counts are natural numbers throughout. The generator's behaviour on negative counts is not part of the model.
- Go strings are compared byte by byte. Here strings are `seq<char>`, compared element by element. The two orders agree on ASCII strings. The model assumes that the generated keys are ASCII; the generator's code is not part of this model.
- Slices that are never written after they are built (the access sequence, `Keys`, `Values`, the element list) are returned as sequences, so aliasing between them is not captured. The loops that fill them still write arrays.
- `KeySpace.NewGetSetting`: it requires the generated `2*cnt` strings to be strictly sorted, so the generator is assumed to return distinct strings. Its code is not part of this model, so whether it can repeat a string is not settled here.
- In GetFPR, the `present` map of booleans (trie/benchmark/benchmark.go:97-100) is a set.
- `Adapters.SlimKV.Get`: it requires that the trie's answer `idx` is a position of the side table (`IndexInRange`), and `KeySpace.PositionsInRange` assumes the same of a whole setting. The trie stores only the values 0..cnt-1, but it is foreign, so this is an assumption. The panic of `s.Elts[idx]` (trie/benchmark/benchmark.go:383) on a position out of range is not modelled.
- `zipf.Accesses` is assumed to return exactly `times` = maxMask(n) + 1 entries, so `accesses[i & mask]` stays in range, and only key positions in [0, n), so the key read of a zipf run never overruns. Its `Values[i & mask]` read in the B-tree loop is modelled and can overrun.
- `Aggregators.BenchGet`, `Aggregators.GetMapSlimArrayBtree`: the model assumes `testing.Benchmark` does not recover a panic of its loop, so an overrun ends the whole run. The overrun depends on the largest `b.N`, which comes from timing and enters as a parameter.
- `Config` and `SearchResult` are declared but not used by the modelled code.
- array/example_common_test.go is a printed example of another package, and that package's source is not part of this model.

## Findings

| source | as written | input that shows it | evidently intended | confidence | as-written member | corrected member |
|---|---|---|---|---|---|---|
| trie/benchmark/benchmark.go:178-186 | `mask := maxMask(n)` picks the largest 2^k - 1 that is at most n. For n = 2^k - 1 that is n itself, so `keys[accesses[i&mask]]` in a scan run reads `keys[n]`, past the end. The same mask also indexes `gst.Values[i&mask]` at line 258. | n = 7 present keys, workload "scan", iteration i = 7: accesses[7 & 7] = 7 and keys has 7 entries | the mask is the largest 2^k - 1 below n, so every access lies in [0, n) | high; not executed | `Workload.ScanOverrunsKeys` | `Workload.KeyMask` |
