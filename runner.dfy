/**
 * The untimed part of benchGet and benchGet_map_slim_array_btree: choosing
 * the key list, the mask and the access sequence before the timed loop.
 */
module Runner {
  import opened Errors
  import opened KeySpace
  import opened Workload

  /** What the timed loop reads: keys[accesses[i & mask]] at iteration i. */
  datatype Bench = Bench(keys: seq<string>, mask: nat, accesses: seq<int>)

  /**
   * typ "present" times the present keys, any other value the absent ones;
   * the workload is built before timing starts and an unknown one is fatal.
   */
  method PrepareBench(s: GetSetting, typ: string, workload: string, zipf: (nat, nat) -> seq<int>)
    returns (r: Result<Bench>)
    ensures r.Success? <==> IsKnownWorkload(workload)
    ensures r.Failure? ==> r.error == UnknownWorkload(workload)
    ensures r.Success? ==> r.value.keys == (if typ == "present" then s.keys else s.absentKeys)
    ensures r.Success? ==> r.value.mask == MaxMaskSpec(|r.value.keys|)
    ensures r.Success? && workload == "zipf" ==> r.value.accesses == zipf(|r.value.keys|, r.value.mask + 1)
    ensures r.Success? && workload == "scan" ==>
      |r.value.accesses| == r.value.mask + 1 &&
      (forall i: nat :: BitAnd(i, r.value.mask) < |r.value.accesses|) &&
      forall i: nat :: r.value.accesses[BitAnd(i, r.value.mask)] == MaskedIndex(|r.value.keys|, i)
  {
    var keys := if typ == "present" then s.keys else s.absentKeys;
    var n := |keys|;
    var mask := MaxMask(n);
    var accesses := NewWorkLoad(workload, n, zipf);
    if accesses.Failure? {
      return Failure(accesses.error);
    }
    if workload == "scan" {
      forall i: nat ensures BitAnd(i, mask) < |accesses.value| {
        MaskedIndexInRange(n, i);
      }
    }
    return Success(Bench(keys, mask, accesses.value));
  }
}
