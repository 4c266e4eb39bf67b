/**
 * The lookup structures the benchmark compares, each behind Get(key):
 * the exact wrapper over SlimTrie, the Go map, and the sorted array searched
 * by binary search. The B-tree is a foreign library and is not modelled.
 */
module Adapters {
  import opened Errors
  import opened Strings

  /** A full key-value pair, the side table of slimKV and the B-tree's item. */
  datatype KVElt = KVElt(key: string, val: int) {
    /** KVElt.Less: ordered by key alone, as google/btree's Item requires. */
    predicate Less(than: KVElt) {
      Strings.Less(key, than.key)
    }
  }

  /** KVElt.Less is a strict weak order by key: elements with equal keys are equivalent. */
  lemma KVEltLessOrder(x: KVElt, y: KVElt, z: KVElt)
    ensures !x.Less(x)
    ensures x.Less(y) && y.Less(z) ==> x.Less(z)
    ensures x.key != y.key ==> x.Less(y) != y.Less(x)
    ensures x.key == y.key ==> !x.Less(y) && !y.Less(x)
  {
    LessStrictTotalOrder(x.key, y.key, z.key);
    LessStrictTotalOrder(y.key, x.key, z.key);
  }

  /**
   * slimKV: the SlimTrie index, seen only through its GetI32 lookup `slim`,
   * which may report a position for a key it never stored, and the side
   * table of full pairs that rejects such false positives.
   */
  datatype SlimKV = SlimKV(slim: string -> Option<int>, elts: seq<KVElt>) {

    /** GetI32 yields, for this key, nothing or a position of the side table. */
    predicate IndexInRange(key: string) {
      slim(key).None? || 0 <= slim(key).value < |elts|
    }

    /** slimKV.Get: -1 when the index has no candidate or when the candidate's key differs. */
    function Get(key: string): (v: int)
      requires IndexInRange(key)
      ensures v != -1 ==> exists j :: 0 <= j < |elts| && elts[j].key == key && elts[j].val == v
      ensures (forall j :: 0 <= j < |elts| ==> elts[j].key != key) ==> v == -1
      ensures slim(key).None? ==> v == -1
      ensures slim(key).Some? && elts[slim(key).value].key != key ==> v == -1
      ensures slim(key).Some? && elts[slim(key).value].key == key ==> v == elts[slim(key).value].val
    {
      match slim(key)
      case None => -1
      case Some(idx) =>
        var elt := elts[idx];
        if elt.key != key then -1 else elt.val
    }
  }

  /** The Go map read m[key], which yields the zero value for an absent key. */
  function MapGet(m: map<string, int>, key: string): int {
    if key in m then m[key] else 0
  }

  /**
   * sort.Search(n, f) with f(i) = strings.Compare(keys[i], searchKey) >= 0:
   * the first position whose key is not below searchKey.
   */
  method SearchLowerBound(keys: seq<string>, searchKey: string) returns (idx: nat)
    requires Sorted(keys)
    ensures idx <= |keys|
    ensures forall i :: 0 <= i < idx ==> Compare(keys[i], searchKey) < 0
    ensures forall i :: idx <= i < |keys| ==> Compare(keys[i], searchKey) >= 0
  {
    var lo, hi := 0, |keys|;
    while lo < hi
      invariant 0 <= lo <= hi <= |keys|
      invariant forall i :: 0 <= i < lo ==> Compare(keys[i], searchKey) < 0
      invariant forall i :: hi <= i < |keys| ==> Compare(keys[i], searchKey) >= 0
    {
      var h := (lo + hi) / 2;
      if Compare(keys[h], searchKey) < 0 {
        forall i | 0 <= i < h ensures Compare(keys[i], searchKey) < 0 {
          LeqLessTrans(keys[i], keys[h], searchKey);
        }
        lo := h + 1;
      } else {
        forall i | h < i < |keys| ensures Compare(keys[i], searchKey) >= 0 {
          CompareFlip(keys[h], searchKey);
          CompareTrans(searchKey, keys[h], keys[i]);
          CompareFlip(searchKey, keys[i]);
        }
        hi := h;
      }
    }
    idx := lo;
  }

  /**
   * sortedArraySearch: the value paired with the first occurrence of
   * searchKey, or -1 when searchKey is not among the keys.
   */
  method SortedArraySearch(keys: seq<string>, values: seq<int>, searchKey: string) returns (v: int)
    requires Sorted(keys)
    requires |keys| <= |values|
    ensures searchKey in keys ==>
      exists j :: 0 <= j < |keys| && keys[j] == searchKey && v == values[j] &&
        forall i :: 0 <= i < j ==> keys[i] != searchKey
    ensures searchKey !in keys ==> v == -1
    ensures StrictlySorted(keys) ==>
      forall j :: 0 <= j < |keys| && keys[j] == searchKey ==> v == values[j]
  {
    var n := |keys|;
    var idx := SearchLowerBound(keys, searchKey);
    forall i | 0 <= i < idx ensures keys[i] != searchKey {
      CompareZeroIff(keys[i], searchKey);
    }
    if idx < n && Compare(keys[idx], searchKey) == 0 {
      CompareZeroIff(keys[idx], searchKey);
      if StrictlySorted(keys) {
        forall j | 0 <= j < n && keys[j] == searchKey ensures j == idx {
          StrictlySortedInjective(keys, j, idx);
        }
      }
      return values[idx];
    }
    forall j | idx < j < n ensures keys[j] != searchKey {
      // keys[idx] is strictly above searchKey, and keys[j] is not below keys[idx]
      CompareFlip(keys[idx], searchKey);
      LessLeqTrans(searchKey, keys[idx], keys[j]);
      CompareZeroIff(searchKey, keys[j]);
    }
    if idx < n {
      CompareZeroIff(keys[idx], searchKey);
    }
    return -1;
  }
}
