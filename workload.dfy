/** The access-sequence generator: maxMask, the scan and zipf workloads, and mask indexing. */
module Workload {
  import opened Errors

  function Pow2(k: nat): (p: nat)
    ensures p >= 1
  {
    if k == 0 then 1 else 2 * Pow2(k - 1)
  }

  lemma {:induction false} Pow2Monotone(a: nat, b: nat)
    requires a <= b
    ensures Pow2(a) <= Pow2(b)
    decreases b
  {
    if a < b {
      Pow2Monotone(a, b - 1);
    }
  }

  /** The exponent of the highest power of two not above x. */
  function FloorLog2(x: nat): (k: nat)
    requires x >= 1
    ensures Pow2(k) <= x < Pow2(k + 1)
  {
    if x == 1 then 0 else 1 + FloorLog2(x / 2)
  }

  lemma FloorLog2Unique(x: nat, k: nat)
    requires x >= 1 && Pow2(k) <= x < Pow2(k + 1)
    ensures FloorLog2(x) == k
  {
    var j := FloorLog2(x);
    if j < k {
      Pow2Monotone(j + 1, k);
    } else if j > k {
      Pow2Monotone(k + 1, j);
    }
  }

  /**
   * Reference definition of maxMask(n): the largest 2^k - 1 with k >= 1 that
   * is at most n, and 1 when no such value exists (n <= 1).
   */
  function MaxMaskSpec(n: int): (m: nat)
    ensures m >= 1
    ensures exists k: nat {:trigger Pow2(k)} :: k >= 1 && m == Pow2(k) - 1
    ensures n >= 1 ==> m <= n
    ensures n < 2 * m + 1
  {
    if n <= 1 then
      assert 1 == Pow2(1) - 1;
      1
    else
      var k := FloorLog2(n + 1);
      assert k >= 1;
      Pow2(k) - 1
  }

  /** No value 2^k - 1 with k >= 1 below n is larger than maxMask(n). */
  lemma MaxMaskIsLargest(n: int, k: nat)
    requires k >= 1 && Pow2(k) - 1 <= n
    ensures Pow2(k) - 1 <= MaxMaskSpec(n)
  {
    var j: nat :| j >= 1 && MaxMaskSpec(n) == Pow2(j) - 1;
    if k > j {
      Pow2Monotone(j + 1, k);
    } else {
      Pow2Monotone(k, j);
    }
  }

  lemma MaxMaskExamples()
    ensures MaxMaskSpec(0) == 1 && MaxMaskSpec(1) == 1
    ensures MaxMaskSpec(7) == 7 && MaxMaskSpec(8) == 7
    ensures MaxMaskSpec(16) == 15 && MaxMaskSpec(100) == 63
  {
    assert Pow2(3) == 8 && Pow2(4) == 16;
    FloorLog2Unique(8, 3);
    FloorLog2Unique(9, 3);
    FloorLog2Unique(17, 4);
    assert Pow2(6) == 64 && Pow2(7) == 128;
    FloorLog2Unique(101, 6);
  }

  /**
   * maxMask: starting from 1, keep extending the mask by one low bit while
   * the extended mask is still at most n. (mask<<1 | 1) is 2*mask + 1 because
   * mask<<1 is even; integers are unbounded here.
   */
  method MaxMask(n: int) returns (mask: nat)
    ensures mask == MaxMaskSpec(n)
  {
    mask := 1;
    ghost var k: nat := 1;
    while 2 * mask + 1 <= n
      invariant k >= 1 && mask == Pow2(k) - 1
      invariant mask == 1 || mask <= n
      decreases n - mask
    {
      mask := 2 * mask + 1;
      k := k + 1;
    }
    if n >= 2 {
      FloorLog2Unique(n + 1, k);
    }
  }

  /** Go's a & b on non-negative integers, bit by bit from the lowest. */
  function BitAnd(a: nat, b: nat): nat
    decreases a
  {
    if a == 0 || b == 0 then 0
    else 2 * BitAnd(a / 2, b / 2) + (if a % 2 == 1 && b % 2 == 1 then 1 else 0)
  }

  /** Division with remainder has only one answer. */
  lemma ModUnique(i: nat, m: nat, t: int, x: int)
    requires m >= 1 && 0 <= x < m && i == m * t + x
    ensures i % m == x
  {
    var t', x' := i / m, i % m;
    assert m * (t - t') == x' - x;
    MulAwayFromZero(m, t - t');
  }

  lemma MulAwayFromZero(m: int, d: int)
    requires m >= 1
    ensures d >= 1 ==> m * d >= m
    ensures d <= -1 ==> m * d <= -m
  {
  }

  lemma ModDouble(i: nat, p: nat)
    requires p >= 1
    ensures i % (2 * p) == 2 * ((i / 2) % p) + i % 2
  {
    var q, r := i / 2, i % 2;
    var t, s := q / p, q % p;
    assert q == p * t + s;
    assert i == 2 * q + r;
    assert i == (2 * p) * t + (2 * s + r);
    ModUnique(i, 2 * p, t, 2 * s + r);
  }

  /** Halving an odd mask m = 2p - 1 drops its low bit, which is set. */
  lemma MaskHalves(m: nat, p: nat)
    requires m + 1 == 2 * p
    ensures m % 2 == 1 && m / 2 == p - 1
  {
    ModUnique(m, 2, p - 1, 1);
  }

  /** One bit of the recursion: with an odd mask, the low bit of i is kept. */
  lemma BitAndOddStep(i: nat, b: nat)
    requires i > 0 && b % 2 == 1
    ensures BitAnd(i, b) == 2 * BitAnd(i / 2, b / 2) + i % 2
  {
  }

  /** Masking with m = 2^k - 1 is reduction modulo 2^k: i & m == i % (m + 1). */
  lemma {:induction false} BitAndLowMask(i: nat, m: nat, k: nat)
    requires m + 1 == Pow2(k)
    ensures BitAnd(i, m) == i % (m + 1)
    decreases k
  {
    if k == 0 {
      ModOne(i);
    } else if i > 0 {
      var p := Pow2(k - 1);
      MaskHalves(m, p);
      BitAndOddStep(i, m);
      BitAndLowMask(i / 2, m / 2, k - 1);
      ModDouble(i, p);
      assert BitAnd(i, m) == 2 * ((i / 2) % p) + i % 2 == i % (2 * p);
    } else {
      ZeroMod(m + 1);
    }
  }

  lemma ModOne(i: nat)
    ensures i % 1 == 0
  {
  }

  lemma ZeroMod(m: nat)
    requires m >= 1
    ensures 0 % m == 0
  {
  }

  /**
   * The hot loops read accesses[i & mask] with mask = maxMask(n): for every
   * i >= 0 that position lies inside the access sequence of length
   * maxMask(n) + 1, which is a power of two.
   */
  lemma MaskedIndexInRange(n: int, i: nat)
    ensures exists k: nat {:trigger Pow2(k)} :: MaxMaskSpec(n) + 1 == Pow2(k)
    ensures BitAnd(i, MaxMaskSpec(n)) == i % (MaxMaskSpec(n) + 1)
    ensures BitAnd(i, MaxMaskSpec(n)) < MaxMaskSpec(n) + 1
  {
    var k: nat :| k >= 1 && MaxMaskSpec(n) == Pow2(k) - 1;
    BitAndLowMask(i, MaxMaskSpec(n), k);
  }

  /** accessesScan: times = maxMask(n) + 1 entries 0, 1, ..., times - 1. */
  method AccessesScan(n: int) returns (a: array<int>)
    ensures fresh(a)
    ensures a.Length == MaxMaskSpec(n) + 1
    ensures forall i :: 0 <= i < a.Length ==> a[i] == i
  {
    var mask := MaxMask(n);
    var times := mask + 1;
    a := new int[times];
    for i := 0 to times
      invariant forall j :: 0 <= j < i ==> a[j] == j
    {
      a[i] := i;
    }
  }

  /**
   * accessesZipf: the Zipf sampler (zipf.Accesses with shape 1 and skew 1.5)
   * is outside the model; `zipf(n, times)` stands for the sequence it returns.
   */
  method AccessesZipf(n: nat, zipf: (nat, nat) -> seq<int>) returns (a: seq<int>)
    ensures a == zipf(n, MaxMaskSpec(n) + 1)
  {
    var mask := MaxMask(n);
    a := zipf(n, mask + 1);
  }

  predicate IsKnownWorkload(workload: string) {
    workload == "zipf" || workload == "scan"
  }

  /**
   * newWorkLoad: "zipf" and "scan" select a generator; every other name is a
   * fatal configuration error. The slice is never written after it is built,
   * so it is handed back as a sequence.
   */
  method NewWorkLoad(workload: string, n: nat, zipf: (nat, nat) -> seq<int>) returns (r: Result<seq<int>>)
    ensures r.Success? <==> IsKnownWorkload(workload)
    ensures !IsKnownWorkload(workload) ==> r == Failure(UnknownWorkload(workload))
    ensures workload == "zipf" ==> r == Success(zipf(n, MaxMaskSpec(n) + 1))
    ensures workload == "scan" ==> r.Success? && |r.value| == MaxMaskSpec(n) + 1
    ensures workload == "scan" ==> forall i :: 0 <= i < |r.value| ==> r.value[i] == i
  {
    if workload == "zipf" {
      var a := AccessesZipf(n, zipf);
      return Success(a);
    } else if workload == "scan" {
      var a := AccessesScan(n);
      return Success(a[..]);
    }
    return Failure(UnknownWorkload(workload));
  }

  /**
   * The position i & maxMask(n) that iteration i of a timed loop over n keys
   * reads: accesses[i & mask] in every loop, then keys[accesses[i & mask]] in
   * a scan run, and Values[i & mask] in the B-tree loop of any workload.
   */
  function MaskedIndex(n: nat, i: nat): (j: nat)
    ensures j <= MaxMaskSpec(n)
    ensures j == i % (MaxMaskSpec(n) + 1)
  {
    MaskedIndexInRange(n, i);
    BitAnd(i, MaxMaskSpec(n))
  }

  /** A value of the form 2^k - 1 is its own maxMask. */
  lemma MaxMaskOfMask(n: int, k: nat)
    requires k >= 1 && n + 1 == Pow2(k)
    ensures MaxMaskSpec(n) == n
  {
    MaxMaskIsLargest(n, k);
  }

  /**
   * When n is itself 2^k - 1, maxMask(n) == n, so iteration i = n of the scan
   * benchmark reads keys[n], one past the end of the n keys.
   */
  lemma ScanOverrunsKeys(n: nat, k: nat)
    requires k >= 1 && n + 1 == Pow2(k)
    ensures MaskedIndex(n, n) == n
  {
    MaxMaskOfMask(n, k);
    ModUnique(n, n + 1, 0, n);
  }

  lemma ScanOverrunsSevenKeys()
    ensures MaskedIndex(7, 7) == 7
  {
    ScanOverrunsKeys(7, 3);
  }

  /**
   * The mask the hot loops evidently intend: the largest 2^k - 1 (k >= 0)
   * that is at most n - 1, so that every access stays inside the n keys.
   */
  function KeyMask(n: nat): (m: nat)
    requires n >= 1
    ensures m < n <= 2 * m + 1
    ensures exists k: nat {:trigger Pow2(k)} :: m + 1 == Pow2(k)
  {
    Pow2(FloorLog2(n)) - 1
  }

  /** With the intended mask every scan access is a valid key position. */
  lemma KeyMaskIndexInRange(n: nat, i: nat)
    requires n >= 1
    ensures BitAnd(i, KeyMask(n)) == i % (KeyMask(n) + 1)
    ensures BitAnd(i, KeyMask(n)) < n
  {
    var k: nat :| KeyMask(n) + 1 == Pow2(k);
    BitAndLowMask(i, KeyMask(n), k);
  }

  /** The intended mask differs from maxMask(n) exactly where maxMask(n) == n. */
  lemma KeyMaskAgrees(n: nat)
    requires n >= 2
    ensures KeyMask(n) == MaxMaskSpec(n) <==> MaxMaskSpec(n) < n
  {
    var j: nat :| j >= 1 && MaxMaskSpec(n) == Pow2(j) - 1;
    if MaxMaskSpec(n) < n {
      FloorLog2Unique(n, j);
    }
  }

  /**
   * Whether a timed loop of `iterations` rounds over n entries reads position
   * n through the mask maxMask(n): keys[accesses[i & mask]] in a scan run,
   * and Values[i & mask] in the B-tree run of any workload.
   */
  predicate LoopOverruns(n: nat, iterations: nat) {
    MaxMaskSpec(n) == n && iterations > n
  }

  /** LoopOverruns holds exactly when some round reads a masked position that is not below n. */
  lemma LoopOverrunsIff(n: nat, iterations: nat)
    requires n >= 1
    ensures LoopOverruns(n, iterations) <==> exists i :: 0 <= i < iterations && MaskedIndex(n, i) >= n
  {
    if LoopOverruns(n, iterations) {
      var k: nat :| k >= 1 && MaxMaskSpec(n) == Pow2(k) - 1;
      ScanOverrunsKeys(n, k);
      assert 0 <= n < iterations && MaskedIndex(n, n) >= n;
    }
    if i :| 0 <= i < iterations && MaskedIndex(n, i) >= n {
      OverrunWitness(n, i);
    }
  }

  /** A masked position that is not below n forces maxMask(n) == n and i >= n. */
  lemma OverrunWitness(n: nat, i: nat)
    requires n >= 1 && MaskedIndex(n, i) >= n
    ensures MaxMaskSpec(n) == n && i >= n
  {
    var m := MaxMaskSpec(n);
    assert MaskedIndex(n, i) == i % (m + 1) <= m <= n;
    ModBelow(i, m + 1);
  }

  lemma ModBelow(i: nat, m: nat)
    requires m >= 1
    ensures i % m <= i
  {
    if i < m {
      ModUnique(i, m, 0, i);
    }
  }

  /** The overrun happens exactly for key counts of the form 2^k - 1, once the loop runs more than n rounds. */
  lemma LoopOverrunsAtMasks(n: nat, iterations: nat)
    ensures LoopOverruns(n, iterations) <==>
      (exists k: nat {:trigger Pow2(k)} :: k >= 1 && n + 1 == Pow2(k)) && iterations > n
  {
    if k: nat :| k >= 1 && n + 1 == Pow2(k) {
      MaxMaskOfMask(n, k);
    }
  }
}
