/** Go's ordering of strings: strings.Compare and the < operator, lexicographic by element. */
module Strings {

  /** strings.Compare(a, b): -1 when a sorts before b, 0 when equal, +1 when after. */
  function Compare(a: string, b: string): (c: int)
    ensures -1 <= c <= 1
    ensures c == 0 ==> |a| == |b|
    decreases |a|
  {
    if |a| == 0 then (if |b| == 0 then 0 else -1)
    else if |b| == 0 then 1
    else if a[0] < b[0] then -1
    else if a[0] > b[0] then 1
    else Compare(a[1..], b[1..])
  }

  /** The string comparison a < b. */
  predicate Less(a: string, b: string) {
    Compare(a, b) < 0
  }

  /** Ascending, duplicates allowed: what sort.Search needs of its input. */
  predicate Sorted(s: seq<string>) {
    forall i, j :: 0 <= i < j < |s| ==> Compare(s[i], s[j]) <= 0
  }

  /** Ascending and duplicate-free: what the key generator yields. */
  predicate StrictlySorted(s: seq<string>) {
    forall i, j :: 0 <= i < j < |s| ==> Less(s[i], s[j])
  }

  lemma {:induction false} CompareZeroIff(a: string, b: string)
    ensures Compare(a, b) == 0 <==> a == b
    decreases |a|
  {
    if |a| > 0 && |b| > 0 && a[0] == b[0] {
      CompareZeroIff(a[1..], b[1..]);
      assert a == [a[0]] + a[1..] && b == [b[0]] + b[1..];
    }
  }

  lemma {:induction false} CompareFlip(a: string, b: string)
    ensures Compare(b, a) == -Compare(a, b)
    decreases |a|
  {
    if |a| > 0 && |b| > 0 && a[0] == b[0] {
      CompareFlip(a[1..], b[1..]);
    }
  }

  lemma {:induction false} CompareTrans(a: string, b: string, c: string)
    requires Compare(a, b) <= 0 && Compare(b, c) <= 0
    ensures Compare(a, c) <= 0
    decreases |a|
  {
    if |a| > 0 && |b| > 0 && |c| > 0 && a[0] == b[0] == c[0] {
      CompareTrans(a[1..], b[1..], c[1..]);
    }
  }

  /** a <= b < c implies a < c. */
  lemma LeqLessTrans(a: string, b: string, c: string)
    requires Compare(a, b) <= 0 && Less(b, c)
    ensures Less(a, c)
  {
    CompareTrans(a, b, c);
    if Compare(a, c) == 0 {
      CompareZeroIff(a, c);
      CompareFlip(b, c);
    }
  }

  /** a < b <= c implies a < c. */
  lemma LessLeqTrans(a: string, b: string, c: string)
    requires Less(a, b) && Compare(b, c) <= 0
    ensures Less(a, c)
  {
    CompareTrans(a, b, c);
    if Compare(a, c) == 0 {
      CompareZeroIff(a, c);
      CompareFlip(a, b);
    }
  }

  /** Less is a strict total order on strings. */
  lemma LessStrictTotalOrder(a: string, b: string, c: string)
    ensures !Less(a, a)
    ensures Less(a, b) && Less(b, c) ==> Less(a, c)
    ensures a != b ==> Less(a, b) != Less(b, a)
  {
    CompareZeroIff(a, a);
    if Less(a, b) && Less(b, c) {
      LeqLessTrans(a, b, c);
    }
    CompareZeroIff(a, b);
    CompareFlip(a, b);
  }

  lemma StrictlySortedIsSorted(s: seq<string>)
    requires StrictlySorted(s)
    ensures Sorted(s)
    ensures forall i, j :: 0 <= i < j < |s| ==> s[i] != s[j]
  {
    forall i, j | 0 <= i < j < |s| ensures s[i] != s[j] {
      CompareZeroIff(s[i], s[j]);
    }
  }

  /** In a strictly sorted sequence each string occurs at exactly one position. */
  lemma StrictlySortedInjective(s: seq<string>, i: int, j: int)
    requires StrictlySorted(s)
    requires 0 <= i < |s| && 0 <= j < |s|
    ensures s[i] == s[j] ==> i == j
  {
    if i != j {
      CompareZeroIff(s[i], s[j]);
    }
  }
}
