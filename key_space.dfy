/**
 * The key space of one benchmark configuration: 2*cnt sorted keys split by
 * parity into present and absent keys, the values 0..cnt-1, and the lookup
 * structures built over the present keys.
 */
module KeySpace {
  import opened Errors
  import opened GoInts
  import opened Strings
  import opened Adapters

  /**
   * GetSetting. The B-tree is a foreign structure and is not part of the
   * model; slimKV's index is the SlimTrie's lookup given at construction.
   */
  datatype GetSetting = GetSetting(
    keys: seq<string>,
    values: seq<int>,
    absentKeys: seq<string>,
    slimKV: SlimKV,
    m: map<string, int>,
    searchKey: string,
    searchValue: int)

  /** What NewGetSetting guarantees of a setting, whatever index it was given. */
  ghost predicate WellFormed(s: GetSetting) {
    && |s.values| == |s.keys| && |s.absentKeys| == |s.keys|
    && StrictlySorted(s.keys) && StrictlySorted(s.absentKeys)
    && (forall i, j :: 0 <= i < |s.keys| && 0 <= j < |s.keys| ==> s.keys[i] != s.absentKeys[j])
    && (forall i :: 0 <= i < |s.values| ==> s.values[i] == Int32(i))
    && |s.slimKV.elts| == |s.keys|
    && (forall i :: 0 <= i < |s.keys| ==> s.slimKV.elts[i] == KVElt(s.keys[i], s.values[i]))
    && (forall k :: k in s.m <==> k in s.keys)
    && (forall i :: 0 <= i < |s.keys| ==> s.keys[i] in s.m && s.m[s.keys[i]] == s.values[i])
  }

  /** makeKVElts: pairs each key with the value at the same position. */
  method MakeKVElts(srcKeys: seq<string>, srcVals: seq<int>) returns (elts: seq<KVElt>)
    requires |srcKeys| <= |srcVals|
    ensures |elts| == |srcKeys|
    ensures forall i :: 0 <= i < |elts| ==> elts[i].key == srcKeys[i] && elts[i].val == srcVals[i]
  {
    var a := new KVElt[|srcKeys|];
    for i := 0 to |srcKeys|
      invariant forall j :: 0 <= j < i ==> a[j] == KVElt(srcKeys[j], srcVals[j])
    {
      a[i] := KVElt(srcKeys[i], srcVals[i]);
    }
    elts := a[..];
  }

  /** Taking every other element of a strictly sorted sequence keeps it strictly sorted. */
  lemma SplitKeepsOrder(ks: seq<string>, keys: seq<string>, absentKeys: seq<string>)
    requires StrictlySorted(ks)
    requires |ks| == 2 * |keys| && |absentKeys| == |keys|
    requires forall i :: 0 <= i < |keys| ==> keys[i] == ks[2 * i] && absentKeys[i] == ks[2 * i + 1]
    ensures StrictlySorted(keys) && StrictlySorted(absentKeys)
    ensures forall i, j :: 0 <= i < |keys| && 0 <= j < |keys| ==> keys[i] != absentKeys[j]
  {
    forall i, j | 0 <= i < |keys| && 0 <= j < |keys| ensures keys[i] != absentKeys[j] {
      StrictlySortedInjective(ks, 2 * i, 2 * j + 1);
    }
  }

  /** The loop of NewGetSetting that puts the even positions in keys and the odd ones in absentKeys. */
  method SplitByParity(cnt: nat, ks: seq<string>) returns (keys: seq<string>, absentKeys: seq<string>)
    requires |ks| == 2 * cnt
    ensures |keys| == cnt && |absentKeys| == cnt
    ensures forall i :: 0 <= i < cnt ==> keys[i] == ks[2 * i] && absentKeys[i] == ks[2 * i + 1]
  {
    var ka := new string[cnt];
    var aa := new string[cnt];
    for i := 0 to cnt
      invariant forall j :: 0 <= j < i ==> ka[j] == ks[2 * j] && aa[j] == ks[2 * j + 1]
    {
      ka[i] := ks[i * 2];
      aa[i] := ks[i * 2 + 1];
    }
    keys, absentKeys := ka[..], aa[..];
  }

  /** The loop of NewGetSetting that sets vals[i] = int32(i). */
  method PositionValues(cnt: nat) returns (vals: seq<int>)
    ensures |vals| == cnt
    ensures forall i :: 0 <= i < cnt ==> vals[i] == Int32(i)
    ensures cnt <= Two31 ==> forall i :: 0 <= i < cnt ==> vals[i] == i
  {
    var va := new int[cnt];
    for i := 0 to cnt
      invariant forall j :: 0 <= j < i ==> va[j] == Int32(j)
    {
      va[i] := Int32(i);
    }
    vals := va[..];
  }

  /** The loop of NewGetSetting that builds the Go map m[keys[i]] = vals[i]. */
  method BuildMap(keys: seq<string>, vals: seq<int>) returns (m: map<string, int>)
    requires StrictlySorted(keys) && |keys| <= |vals|
    ensures forall k :: k in m <==> k in keys
    ensures forall i :: 0 <= i < |keys| ==> keys[i] in m && m[keys[i]] == vals[i]
  {
    m := map[];
    for i := 0 to |keys|
      invariant m.Keys == set j | 0 <= j < i :: keys[j]
      invariant forall j :: 0 <= j < i ==> keys[j] in m && m[keys[j]] == vals[j]
    {
      forall j | 0 <= j < i ensures keys[j] != keys[i] {
        StrictlySortedInjective(keys, j, i);
      }
      m := m[keys[i] := vals[i]];
    }
  }

  /**
   * NewGetSetting(cnt, keyLen). The generator's output ks (2*cnt sorted,
   * distinct strings), the SlimTrie built over the present keys (its lookup
   * `slim`) and the random draw `pick` of rand.Int63n(cnt) are parameters.
   * rand.Int63n panics when cnt is 0.
   */
  method NewGetSetting(cnt: nat, ks: seq<string>, slim: string -> Option<int>, pick: nat)
    returns (r: Result<GetSetting>)
    requires |ks| == 2 * cnt && StrictlySorted(ks)
    requires cnt == 0 || pick < cnt
    ensures r.Failure? <==> cnt == 0
    ensures r.Failure? ==> r.error == EmptyKeySpace
    ensures r.Success? ==> WellFormed(r.value)
    ensures r.Success? ==> |r.value.keys| == cnt && r.value.slimKV.slim == slim
    ensures r.Success? ==> forall i :: 0 <= i < cnt ==>
      r.value.keys[i] == ks[2 * i] && r.value.absentKeys[i] == ks[2 * i + 1] && r.value.values[i] == Int32(i)
    ensures r.Success? ==>
      r.value.searchKey == r.value.keys[pick] && r.value.searchValue == r.value.values[pick]
  {
    var keys, absentKeys := SplitByParity(cnt, ks);
    var vals := PositionValues(cnt);
    SplitKeepsOrder(ks, keys, absentKeys);
    var elts := MakeKVElts(keys, vals);
    var m := BuildMap(keys, vals);
    if cnt == 0 {
      return Failure(EmptyKeySpace);
    }
    var searchKey := keys[pick];
    var searchVal := vals[pick];
    return Success(GetSetting(keys, vals, absentKeys, SlimKV(slim, elts), m, searchKey, searchVal));
  }

  /** The SlimTrie never misses a stored key: it yields the value stored with it. */
  ghost predicate NoFalseNegatives(s: GetSetting) {
    |s.values| == |s.keys| &&
    forall i :: 0 <= i < |s.keys| ==> s.slimKV.slim(s.keys[i]) == Some(s.values[i])
  }

  /** Every candidate the SlimTrie yields is a position of the side table. */
  ghost predicate PositionsInRange(s: GetSetting) {
    forall key :: s.slimKV.IndexInRange(key)
  }

  /**
   * Every present key is found by the exact SlimTrie wrapper and by the
   * map, with the position it was stored at as its value; the sorted-array
   * search is covered by ArrayLookup.
   */
  lemma PresentKeysFound(s: GetSetting, i: nat)
    requires WellFormed(s) && NoFalseNegatives(s)
    requires |s.keys| <= Two31 && i < |s.keys|
    ensures s.slimKV.IndexInRange(s.keys[i])
    ensures s.slimKV.Get(s.keys[i]) == i
    ensures MapGet(s.m, s.keys[i]) == i
  {
  }

  /** The array adapter: sortedArraySearch over the setting's own Keys and Values. */
  method ArrayLookup(s: GetSetting, key: string) returns (v: int)
    requires WellFormed(s)
    ensures forall i :: 0 <= i < |s.keys| && s.keys[i] == key ==> v == s.values[i]
    ensures key !in s.keys ==> v == -1
  {
    StrictlySortedIsSorted(s.keys);
    v := SortedArraySearch(s.keys, s.values, key);
  }

  /**
   * Every absent key is rejected: the wrapper's key check turns a false
   * positive of the SlimTrie into -1, and the map yields its zero value.
   */
  lemma AbsentKeysRejected(s: GetSetting, i: nat)
    requires WellFormed(s) && PositionsInRange(s)
    requires i < |s.absentKeys|
    ensures s.absentKeys[i] !in s.keys
    ensures s.slimKV.Get(s.absentKeys[i]) == -1
    ensures MapGet(s.m, s.absentKeys[i]) == 0
  {
    assert s.slimKV.IndexInRange(s.absentKeys[i]);
  }
}
