/** The peak search shared by both `getRellevantInfo` variants: a scan of
    bins [1, n) against a running maximum that starts at (0, 0) and moves
    only on a strictly larger real part. */
module PeakSearch {
  import opened ComplexNumbers

  /** (maxA, maxI) is what the scan leaves: bin 0 is never selected, the
      amplitude is nonnegative and bounds every scanned bin, and a selected
      bin carries that amplitude and is the first one to reach it. With no
      positive bin the defaults (0, 0) remain. */
  predicate IsFirstPeak(data: seq<Complex>, n: nat, maxA: real, maxI: int)
    requires n <= |data|
  {
    && 0.0 <= maxA
    && (maxI == 0 || 1 <= maxI < n)
    && (forall k :: 1 <= k < n ==> data[k].re <= maxA)
    && (maxI == 0 ==> maxA == 0.0)
    && (maxI != 0 ==> 0.0 < maxA && data[maxI].re == maxA && forall k :: 1 <= k < maxI ==> data[k].re < maxA)
  }

  /** The scan as a recursion over its upper bound: bin n − 1 replaces the
      running maximum of the bins before it only when strictly larger. */
  function ScanPeak(data: seq<Complex>, n: nat): (peak: (real, int))
    requires n <= |data|
    ensures IsFirstPeak(data, n, peak.0, peak.1)
  {
    if n <= 1 then (0.0, 0)
    else
      var (a, i) := ScanPeak(data, n - 1);
      if data[n - 1].re > a then (data[n - 1].re, n - 1) else (a, i)
  }

  /** At most one pair meets the description, so it pins the scan's result down. */
  lemma FirstPeakUnique(data: seq<Complex>, n: nat, a1: real, i1: int, a2: real, i2: int)
    requires n <= |data|
    requires IsFirstPeak(data, n, a1, i1) && IsFirstPeak(data, n, a2, i2)
    ensures a1 == a2 && i1 == i2
  {
  }

  /** The defaults survive exactly when no scanned bin has a positive real part. */
  lemma DefaultsIffNoPositiveBin(data: seq<Complex>, n: nat, maxA: real, maxI: int)
    requires n <= |data| && IsFirstPeak(data, n, maxA, maxI)
    ensures maxI == 0 <==> forall k :: 1 <= k < n ==> data[k].re <= 0.0
    ensures maxI == 0 <==> maxA == 0.0
  {
  }

  /** Bin 0 plays no part: changing it changes nothing in the result. */
  lemma PeakIgnoresBinZero(data: seq<Complex>, n: nat, x: Complex)
    requires 1 <= n <= |data|
    ensures ScanPeak(data[0 := x], n) == ScanPeak(data, n)
  {
    var moved := data[0 := x];
    var a1, i1 := ScanPeak(moved, n).0, ScanPeak(moved, n).1;
    assert forall k :: 1 <= k < n ==> moved[k] == data[k];
    assert IsFirstPeak(data, n, a1, i1);
    FirstPeakUnique(data, n, a1, i1, ScanPeak(data, n).0, ScanPeak(data, n).1);
  }
}
