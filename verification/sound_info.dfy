/** The sound-information mode (soundInfo.h): the same analysis as the
    listening mode, plus a histogram of how often each bin was the peak. */
module SoundInfo {
  import opened ComplexNumbers
  import opened FftTypes
  import opened PeakSearch
  import ListenLogic

  /** Sum of all counters. */
  function Total(counts: seq<int>): int {
    if counts == [] then 0 else Total(counts[..|counts| - 1]) + counts[|counts| - 1]
  }

  /** Bumping one counter raises the total by exactly one. */
  lemma {:induction false} BumpAddsOne(counts: seq<int>, i: nat)
    requires i < |counts|
    ensures Total(counts[i := counts[i] + 1]) == Total(counts) + 1
  {
    var bumped := counts[i := counts[i] + 1];
    var last := |counts| - 1;
    if i == last {
      assert bumped[..last] == counts[..last];
    } else {
      assert bumped[..last] == counts[..last][i := counts[i] + 1];
      BumpAddsOne(counts[..last], i);
    }
  }

  /** `getRellevantInfo` with its histogram update: the first strict maximum
      of bins [1, LISTEN_SAMPLES), defaulting to (0, 0), after which the
      counter of the chosen bin, bin 0 included, goes up by one and no other
      counter moves. */
  method GetRelevantInfo(data: seq<Complex>, counts: seq<int>) returns (maxA: real, maxI: int, counts': seq<int>)
    requires |data| == ListenLogic.LISTEN_SAMPLES && |counts| == ListenLogic.LISTEN_SAMPLES
    ensures IsFirstPeak(data, ListenLogic.LISTEN_SAMPLES, maxA, maxI)
    ensures |counts'| == |counts| && 0 <= maxI < |counts|
    ensures counts'[maxI] == counts[maxI] + 1
    ensures forall k :: 0 <= k < |counts| && k != maxI ==> counts'[k] == counts[k]
    ensures Total(counts') == Total(counts) + 1
  {
    maxA, maxI := 0.0, 0;
    var i := 1;
    while i < ListenLogic.LISTEN_SAMPLES
      invariant 1 <= i <= ListenLogic.LISTEN_SAMPLES
      invariant IsFirstPeak(data, i, maxA, maxI)
    {
      if data[i].re > maxA {
        maxA := data[i].re;
        maxI := i;
      }
      i := i + 1;
    }
    counts' := counts[maxI := counts[maxI] + 1];
    BumpAddsOne(counts, maxI);
  }

  /** `analyzeSound`: the frame's spectrum and its peak, returned as the pair
      (amplitude, bin), with the histogram updated for that bin. */
  method AnalyzeSound(samples: seq<Complex>, trig: Trig, counts: seq<int>)
    returns (peak: (real, int), counts': seq<int>)
    requires |samples| == ListenLogic.LISTEN_SAMPLES && |counts| == ListenLogic.LISTEN_SAMPLES
    ensures IsFirstPeak(ListenLogic.Spectrum(samples, trig), ListenLogic.LISTEN_SAMPLES, peak.0, peak.1)
    ensures 0 <= peak.1 < |counts| && counts' == counts[peak.1 := counts[peak.1] + 1]
  {
    var spectrum := ListenLogic.AnalyzeSound(samples, trig);
    var maxA, maxI;
    maxA, maxI, counts' := GetRelevantInfo(spectrum, counts);
    peak := (maxA, maxI);
  }

  // ---------------------------------------------------------------------
  // The histogram across calls

  /** The counters after one call per entry of peaks, in order. */
  function Tally(counts: seq<int>, peaks: seq<nat>): (out: seq<int>)
    requires forall p :: p in peaks ==> p < |counts|
    ensures |out| == |counts|
  {
    if peaks == [] then counts
    else
      var front := peaks[..|peaks| - 1];
      assert forall p :: p in front ==> p in peaks;
      var before := Tally(counts, front);
      var p := peaks[|peaks| - 1];
      assert p in peaks;
      before[p := before[p] + 1]
  }

  /** How many entries of peaks name bin k. */
  function Occurrences(peaks: seq<nat>, k: nat): nat {
    if peaks == [] then 0
    else Occurrences(peaks[..|peaks| - 1], k) + if peaks[|peaks| - 1] == k then 1 else 0
  }

  /** Each counter ends at its start value plus the number of calls that
      chose its bin, so counters never decrease, and the total grows by the
      number of calls. */
  lemma {:induction false} TallyCounts(counts: seq<int>, peaks: seq<nat>)
    requires forall p :: p in peaks ==> p < |counts|
    ensures forall k :: 0 <= k < |counts| ==> Tally(counts, peaks)[k] == counts[k] + Occurrences(peaks, k)
    ensures forall k :: 0 <= k < |counts| ==> Tally(counts, peaks)[k] >= counts[k]
    ensures Total(Tally(counts, peaks)) == Total(counts) + |peaks|
  {
    if peaks != [] {
      var front := peaks[..|peaks| - 1];
      assert forall p :: p in front ==> p in peaks;
      TallyCounts(counts, front);
      var before := Tally(counts, front);
      var p := peaks[|peaks| - 1];
      assert p in peaks;
      BumpAddsOne(before, p);
    }
  }
}
