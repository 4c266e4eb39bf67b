/**
 * The estimators and the result aggregators: the false-positive counting
 * loop, the bits-per-key arithmetic, and the loops that build one result row
 * per requested key count. Measured ns/op and the SlimTrie's byte size come
 * from outside the model and are parameters.
 */
module Aggregators {
  import opened Errors
  import opened GoInts
  import opened Strings
  import opened Workload
  import opened KeySpace
  import opened Runner

  /** GetResult: ns/Get() for the key lengths 64, 128 and 256; MemResult shares its shape. */
  datatype GetResult = GetResult(keyCount: nat, k64: int, k128: int, k256: int)
  type MemResult = GetResult

  /** MSABResult: ns/Get() for the map, SlimTrie, sorted array and B-tree. */
  datatype MSABResult = MSABResult(keyCount: nat, mapNs: int, slimNs: int, arrayNs: int, btreeNs: int)

  /** FPRResult with the rate kept as its two integer counts: false positives among samples. */
  datatype FPRResult = FPRResult(keyCount: nat, falsePositives: nat, samples: nat)

  /** The four structures timed by GetMapSlimArrayBtree, the keys of its nsops map. */
  datatype Structure = MapIndex | SlimIndex | SortedArray | Btree

  // ---------------------------------------------------------------- memory

  /**
   * slimtrieMem's result int64(sz) * 8 / int64(keyCnt) for a SlimTrie of sz
   * bytes: the product in int64 arithmetic, then Go's truncating division,
   * which panics on a zero key count.
   */
  function BitsPerKey(sz: nat, keyCnt: nat): (r: Result<int>)
    ensures r.Failure? <==> keyCnt == 0
    ensures r.Failure? ==> r.error == DivisionByZero
    ensures r.Success? && sz * 8 < Two63 ==>
      0 <= r.value && r.value * keyCnt <= sz * 8 < (r.value + 1) * keyCnt
  {
    if keyCnt == 0 then Failure(DivisionByZero)
    else
      var q := Quot(Int64(sz * 8), keyCnt);
      assert sz * 8 < Two63 ==> 0 <= q && q * keyCnt <= sz * 8 < (q + 1) * keyCnt by {
        if sz * 8 < Two63 {
          FloorQuotient(sz * 8, keyCnt, q);
        }
      }
      Success(q)
  }

  /** A truncated quotient of a non-negative dividend is its floor quotient. */
  lemma FloorQuotient(x: int, d: int, q: int)
    requires 0 <= x && d >= 1 && 0 <= x - q * d < d
    ensures 0 <= q && q * d <= x < (q + 1) * d
  {
    assert (q + 1) * d == q * d + d;
    MulCancel(q, -1, d);
  }

  /** A structure of at least one byte per key costs at least eight bits per key. */
  lemma BitsPerKeyAtLeastEight(sz: nat, keyCnt: nat)
    requires 0 < keyCnt <= sz && sz * 8 < Two63
    ensures BitsPerKey(sz, keyCnt).Success? && BitsPerKey(sz, keyCnt).value >= 8
  {
    var r := BitsPerKey(sz, keyCnt).value;
    assert (r + 1) * keyCnt > 8 * keyCnt;
    MulCancel(r + 1, 8, keyCnt);
  }

  lemma MulCancel(a: int, b: int, c: int)
    requires c > 0 && a * c > b * c
    ensures a > b
  {
    assert (a - b) * c > 0;
  }

  // ---------------------------------------------------------------- false positives

  /** The candidates of a stream that are not present keys, in stream order. */
  function Accepted(stream: seq<string>, present: set<string>): (a: seq<string>)
    ensures |a| <= |stream|
  {
    if stream == [] then []
    else
      var last := stream[|stream| - 1];
      Accepted(stream[..|stream| - 1], present) + (if last in present then [] else [last])
  }

  /** How many of the candidates the membership test reports as found. */
  function CountFound(candidates: seq<string>, found: string -> bool): (c: nat)
    ensures c <= |candidates|
  {
    if candidates == [] then 0
    else CountFound(candidates[..|candidates| - 1], found) + (if found(candidates[|candidates| - 1]) then 1 else 0)
  }

  /** Drawing one more candidate extends the accepted list by it exactly when it is not present. */
  lemma AcceptedStep(stream: seq<string>, drawn: nat, present: set<string>)
    requires drawn < |stream|
    ensures Accepted(stream[..drawn + 1], present) ==
      Accepted(stream[..drawn], present) + (if stream[drawn] in present then [] else [stream[drawn]])
  {
    assert stream[..drawn + 1][..drawn] == stream[..drawn];
  }

  /** Once the whole stream is drawn, its accepted list is that of the stream. */
  lemma AcceptedWhole(stream: seq<string>, drawn: nat, present: set<string>)
    requires drawn <= |stream|
    ensures drawn == |stream| ==> Accepted(stream[..drawn], present) == Accepted(stream, present)
  {
    assert stream[..|stream|] == stream;
  }

  lemma CountFoundStep(candidates: seq<string>, k: string, found: string -> bool)
    ensures CountFound(candidates + [k], found) == CountFound(candidates, found) + (if found(k) then 1 else 0)
  {
    assert (candidates + [k])[..|candidates|] == candidates;
  }

  /**
   * One round of the counting loop, from acc = Accepted(stream[..drawn]):
   * a present candidate leaves both lists unchanged, an absent one is
   * appended and adds 1 to the count exactly when it is found.
   */
  lemma DrawStep(stream: seq<string>, drawn: nat, present: set<string>, found: string -> bool, acc: seq<string>)
    requires drawn < |stream| && acc == Accepted(stream[..drawn], present)
    ensures stream[drawn] in present ==> Accepted(stream[..drawn + 1], present) == acc
    ensures stream[drawn] !in present ==>
      Accepted(stream[..drawn + 1], present) == acc + [stream[drawn]] &&
      CountFound(acc + [stream[drawn]], found) == CountFound(acc, found) + (if found(stream[drawn]) then 1 else 0)
  {
    AcceptedStep(stream, drawn, present);
    CountFoundStep(acc, stream[drawn], found);
  }

  /**
   * The counting loop of GetFPR: draw candidates from the stream, skip those
   * that are present keys without counting them, and count the false
   * positives among the first nAbsent accepted candidates. The random
   * generator is the stream; it must hold nAbsent acceptable candidates.
   */
  method CountFalsePositives(nAbsent: nat, stream: seq<string>, present: set<string>, found: string -> bool)
    returns (fp: nat, drawn: nat)
    requires nAbsent <= |Accepted(stream, present)|
    ensures drawn <= |stream|
    ensures |Accepted(stream[..drawn], present)| == nAbsent
    ensures fp == CountFound(Accepted(stream[..drawn], present), found)
    ensures fp <= nAbsent
    ensures drawn > 0 ==> stream[drawn - 1] !in present
  {
    fp, drawn := 0, 0;
    var i := 0;
    ghost var acc: seq<string> := [];
    ghost var lastKept := true;
    while i < nAbsent
      invariant drawn <= |stream|
      invariant acc == Accepted(stream[..drawn], present)
      invariant i == |acc| && fp == CountFound(acc, found)
      invariant 0 <= fp <= i <= nAbsent
      invariant drawn > 0 && i == nAbsent ==> lastKept
      invariant lastKept ==> drawn == 0 || stream[drawn - 1] !in present
      decreases |stream| - drawn
    {
      AcceptedWhole(stream, drawn, present);
      var k := stream[drawn];
      DrawStep(stream, drawn, present, found, acc);
      drawn := drawn + 1;
      lastKept := k !in present;
      if k !in present {
        acc := acc + [k];
        if found(k) {
          fp := fp + 1;
        }
        i := i + 1;
      }
    }
    assert i == nAbsent && (drawn > 0 ==> lastKept);
  }

  // ---------------------------------------------------------------- rows

  /**
   * The panic, if any, that setting up one configuration of key count n and
   * this workload runs into: NewGetSetting on no keys, then newWorkLoad.
   */
  function ConfigError(n: nat, workload: string): Option<Error> {
    if n == 0 then Some(EmptyKeySpace)
    else if !IsKnownWorkload(workload) then Some(UnknownWorkload(workload))
    else None
  }

  /**
   * The untimed set-up of one configuration: NewGetSetting(n, keyLen), then
   * benchGet's choice of keys, mask and access sequence. It fails exactly
   * with ConfigError(n, workload).
   */
  method SetUp(n: nat, ks: seq<string>, slim: string -> Option<int>, pick: nat,
               typ: string, workload: string, zipf: (nat, nat) -> seq<int>)
    returns (r: Result<Bench>)
    requires |ks| == 2 * n && StrictlySorted(ks) && (n == 0 || pick < n)
    ensures r.Failure? <==> ConfigError(n, workload).Some?
    ensures r.Failure? ==> r.error == ConfigError(n, workload).value
    ensures r.Success? ==> |r.value.keys| == n && r.value.mask == MaxMaskSpec(n)
  {
    var s := NewGetSetting(n, ks, slim, pick);
    if s.Failure? {
      return Failure(s.error);
    }
    r := PrepareBench(s.value, typ, workload, zipf);
  }

  /**
   * The panic, if any, that benchGet hits on n keys for the three key
   * lengths: the set-up errors, then the overrun of a scan run.
   * iterations(j, keyLen) is the largest b.N testing.Benchmark runs the timed
   * loop of row j with.
   */
  function GetError(j: nat, n: nat, workload: string, iterations: (nat, nat) -> nat): Option<Error> {
    if ConfigError(n, workload).Some? then ConfigError(n, workload)
    else if workload == "scan" &&
      (LoopOverruns(n, iterations(j, 64)) || LoopOverruns(n, iterations(j, 128)) || LoopOverruns(n, iterations(j, 256)))
    then Some(IndexOutOfRange(n, n))
    else None
  }

  /**
   * The panic, if any, that benchGet_map_slim_array_btree hits on n keys: the
   * set-up errors, then an overrun. The B-tree loop reads Values[i & mask]
   * under every workload; the other three overrun only in a scan run.
   * iterations(j, structure) is the largest b.N of that loop in row j.
   */
  function MSABError(j: nat, n: nat, workload: string, iterations: (nat, Structure) -> nat): Option<Error> {
    if ConfigError(n, workload).Some? then ConfigError(n, workload)
    else if LoopOverruns(n, iterations(j, Btree)) ||
      (workload == "scan" &&
       (LoopOverruns(n, iterations(j, SlimIndex)) || LoopOverruns(n, iterations(j, MapIndex)) ||
        LoopOverruns(n, iterations(j, SortedArray))))
    then Some(IndexOutOfRange(n, n))
    else None
  }

  /** A failing BenchGet reports the error of its first failing key count. */
  ghost predicate FirstGetError(keyCounts: seq<nat>, workload: string, iterations: (nat, nat) -> nat, e: Error) {
    exists j :: 0 <= j < |keyCounts| && GetError(j, keyCounts[j], workload, iterations) == Some(e) &&
      forall i :: 0 <= i < j ==> GetError(i, keyCounts[i], workload, iterations) == None
  }

  /** A failing GetMapSlimArrayBtree reports the error of its first failing key count. */
  ghost predicate FirstMSABError(keyCounts: seq<nat>, workload: string, iterations: (nat, Structure) -> nat, e: Error) {
    exists j :: 0 <= j < |keyCounts| && MSABError(j, keyCounts[j], workload, iterations) == Some(e) &&
      forall i :: 0 <= i < j ==> MSABError(i, keyCounts[i], workload, iterations) == None
  }

  /**
   * BenchGet: one row per key count, in order, with the ns/op of the three
   * key lengths. Every row is a run of its own: nsPerOp(j, keyLen) is the
   * measured ns/op of benchGet on the setting of row j with keys of length
   * keyLen, and iterations(j, keyLen) its largest b.N.
   */
  method BenchGet(keyCounts: seq<nat>, workload: string, nsPerOp: (nat, nat) -> int, iterations: (nat, nat) -> nat)
    returns (r: Result<seq<GetResult>>)
    ensures r.Success? <==> forall j :: 0 <= j < |keyCounts| ==> GetError(j, keyCounts[j], workload, iterations) == None
    ensures r.Failure? ==> FirstGetError(keyCounts, workload, iterations, r.error)
    ensures r.Success? ==> |r.value| == |keyCounts| && forall j :: 0 <= j < |keyCounts| ==>
      r.value[j] == GetResult(keyCounts[j], nsPerOp(j, 64), nsPerOp(j, 128), nsPerOp(j, 256))
  {
    var rst: seq<GetResult> := [];
    for j := 0 to |keyCounts|
      invariant |rst| == j
      invariant forall i :: 0 <= i < j ==> GetError(i, keyCounts[i], workload, iterations) == None
      invariant forall i :: 0 <= i < j ==>
        rst[i] == GetResult(keyCounts[i], nsPerOp(i, 64), nsPerOp(i, 128), nsPerOp(i, 256))
    {
      var n := keyCounts[j];
      var e := GetError(j, n, workload, iterations);
      if e.Some? {
        return Failure(e.value);
      }
      rst := rst + [GetResult(n, nsPerOp(j, 64), nsPerOp(j, 128), nsPerOp(j, 256))];
    }
    return Success(rst);
  }

  /**
   * GetMapSlimArrayBtree: one row per key count, in order, with the ns/op of
   * each structure on the setting of n keys of length 64, present keys;
   * nsPerOp(j, structure) and iterations(j, structure) are the measured
   * ns/op and the largest b.N of that structure's loop in row j.
   */
  method GetMapSlimArrayBtree(keyCounts: seq<nat>, workload: string, nsPerOp: (nat, Structure) -> int,
                              iterations: (nat, Structure) -> nat)
    returns (r: Result<seq<MSABResult>>)
    ensures r.Success? <==> forall j :: 0 <= j < |keyCounts| ==> MSABError(j, keyCounts[j], workload, iterations) == None
    ensures r.Failure? ==> FirstMSABError(keyCounts, workload, iterations, r.error)
    ensures r.Success? ==> |r.value| == |keyCounts| && forall j :: 0 <= j < |keyCounts| ==>
      r.value[j] == MSABResult(keyCounts[j], nsPerOp(j, MapIndex), nsPerOp(j, SlimIndex), nsPerOp(j, SortedArray), nsPerOp(j, Btree))
  {
    var rst: seq<MSABResult> := [];
    for j := 0 to |keyCounts|
      invariant |rst| == j
      invariant forall i :: 0 <= i < j ==> MSABError(i, keyCounts[i], workload, iterations) == None
      invariant forall i :: 0 <= i < j ==>
        rst[i] == MSABResult(keyCounts[i], nsPerOp(i, MapIndex), nsPerOp(i, SlimIndex), nsPerOp(i, SortedArray), nsPerOp(i, Btree))
    {
      var n := keyCounts[j];
      var e := MSABError(j, n, workload, iterations);
      if e.Some? {
        return Failure(e.value);
      }
      rst := rst + [MSABResult(n, nsPerOp(j, MapIndex), nsPerOp(j, SlimIndex), nsPerOp(j, SortedArray), nsPerOp(j, Btree))];
    }
    return Success(rst);
  }

  /**
   * With 7 keys, a scan run whose loop goes past 7 rounds panics, and so does
   * the B-tree loop of a zipf run; with 8 keys neither does.
   */
  lemma OverrunExamples(j: nat, iterations: (nat, Structure) -> nat)
    requires forall s :: iterations(j, s) > 7
    ensures MSABError(j, 7, "scan", iterations) == Some(IndexOutOfRange(7, 7))
    ensures MSABError(j, 7, "zipf", iterations) == Some(IndexOutOfRange(7, 7))
    ensures MSABError(j, 8, "zipf", iterations) == None
  {
    MaxMaskOfMask(7, 3);
    MaxMaskExamples();
  }

  /**
   * Mem: one row per key count, in order, with the bits per key of a
   * SlimTrie over n keys of each length; sizeOf(j, keyLen) is the byte size
   * of the trie built for row j, over freshly generated keys.
   * A zero key count is a division by zero.
   */
  method Mem(keyCounts: seq<nat>, sizeOf: (nat, nat) -> nat) returns (r: Result<seq<MemResult>>)
    ensures r.Success? <==> forall j :: 0 <= j < |keyCounts| ==> keyCounts[j] > 0
    ensures r.Failure? ==> r.error == DivisionByZero
    ensures r.Success? ==> |r.value| == |keyCounts| && forall j :: 0 <= j < |keyCounts| ==>
      var n := keyCounts[j];
      && r.value[j].keyCount == n
      && r.value[j].k64 == BitsPerKey(sizeOf(j, 64), n).value
      && r.value[j].k128 == BitsPerKey(sizeOf(j, 128), n).value
      && r.value[j].k256 == BitsPerKey(sizeOf(j, 256), n).value
  {
    var rst: seq<MemResult> := [];
    for j := 0 to |keyCounts|
      invariant |rst| == j
      invariant forall i :: 0 <= i < j ==> keyCounts[i] > 0
      invariant forall i :: 0 <= i < j ==> var n := keyCounts[i];
        && rst[i].keyCount == n
        && rst[i].k64 == BitsPerKey(sizeOf(i, 64), n).value
        && rst[i].k128 == BitsPerKey(sizeOf(i, 128), n).value
        && rst[i].k256 == BitsPerKey(sizeOf(i, 256), n).value
    {
      var n := keyCounts[j];
      var b64 := BitsPerKey(sizeOf(j, 64), n);
      if b64.Failure? {
        return Failure(b64.error);
      }
      var b128 := BitsPerKey(sizeOf(j, 128), n).value;
      var b256 := BitsPerKey(sizeOf(j, 256), n).value;
      rst := rst + [GetResult(n, b64.value, b128, b256)];
    }
    return Success(rst);
  }

  /**
   * The row of one key count records the false positives among the first
   * `samples` candidates of the stream that are not keys.
   */
  ghost predicate CountedFrom(row: FPRResult, stream: seq<string>, keys: seq<string>, found: string -> bool) {
    exists drawn :: 0 <= drawn <= |stream| &&
      |Accepted(stream[..drawn], set k | k in keys)| == row.samples &&
      row.falsePositives == CountFound(Accepted(stream[..drawn], set k | k in keys), found)
  }

  /**
   * GetFPR: one row per key count, in order, with the false positives among
   * exactly n*100 absent samples. For the j-th key count, keySets[j] stands
   * for the generated keys, streams[j] for the random candidates and
   * found[j] for the SlimTrie's membership test.
   */
  method GetFPR(keyCounts: seq<nat>, keySets: seq<seq<string>>, streams: seq<seq<string>>, found: seq<string -> bool>)
    returns (rst: seq<FPRResult>)
    requires |keySets| == |keyCounts| && |streams| == |keyCounts| && |found| == |keyCounts|
    requires forall j :: 0 <= j < |keyCounts| ==>
      keyCounts[j] * 100 <= |Accepted(streams[j], set k | k in keySets[j])|
    ensures |rst| == |keyCounts|
    ensures forall j :: 0 <= j < |keyCounts| ==>
      rst[j].keyCount == keyCounts[j] && rst[j].samples == keyCounts[j] * 100 &&
      rst[j].falsePositives <= rst[j].samples
    ensures forall j :: 0 <= j < |keyCounts| ==> CountedFrom(rst[j], streams[j], keySets[j], found[j])
  {
    rst := [];
    var r := 100;
    for j := 0 to |keyCounts|
      invariant |rst| == j
      invariant forall i :: 0 <= i < j ==>
        rst[i].keyCount == keyCounts[i] && rst[i].samples == keyCounts[i] * 100 &&
        rst[i].falsePositives <= rst[i].samples
      invariant forall i :: 0 <= i < j ==> CountedFrom(rst[i], streams[i], keySets[i], found[i])
    {
      var n := keyCounts[j];
      var nAbsent := n * r;
      // the keys of the map `present` of GetFPR, as a set
      var present := set k | k in keySets[j];
      var fp, drawn := CountFalsePositives(nAbsent, streams[j], present, found[j]);
      assert CountedFrom(FPRResult(n, fp, nAbsent), streams[j], keySets[j], found[j]);
      rst := rst + [FPRResult(n, fp, nAbsent)];
    }
  }

  /** The reported rate fp / nAbsent lies in [0, 1]. */
  lemma RateInUnitInterval(row: FPRResult)
    requires row.samples > 0 && row.falsePositives <= row.samples
    ensures 0.0 <= (row.falsePositives as real) / (row.samples as real) <= 1.0
  {
  }
}
