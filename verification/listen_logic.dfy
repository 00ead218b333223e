/** The listening mode (listenLogic.h): spectrum of one frame, its peak bin,
    and the alert table update. */
module ListenLogic {
  import opened ComplexNumbers
  import opened Bits
  import opened FftTypes
  import opened Window
  import opened Fft
  import opened Alerts
  import opened PeakSearch

  /** Samples per frame. */
  const LISTEN_SAMPLES: nat := 1024

  /** `log(LISTEN_SAMPLES) / log(2)` stored in an int: the exponent of the frame length. */
  const LOG2_SAMPLE: nat := 10

  lemma FrameLengthIsPowerOfTwo()
    ensures Pow2(LOG2_SAMPLE) == LISTEN_SAMPLES && LOG2_SAMPLE < WORD
  {
    assert Pow2(2) == 4;
    assert Pow2(4) == 16;
    assert Pow2(6) == 64;
    assert Pow2(8) == 256;
  }

  // ---------------------------------------------------------------------
  // Sound analysis

  /** The spectrum `analyzeSound` leaves for a frame of acquired samples:
      Hamming window forward, then the forward transform with bin 0 cleared. */
  ghost function Spectrum(samples: seq<Complex>, trig: Trig): (spectrum: seq<Complex>)
    requires |samples| == LISTEN_SAMPLES
    ensures |spectrum| == LISTEN_SAMPLES
  {
    FrameLengthIsPowerOfTwo();
    Transform(Windowed(samples, Hamming, Forward, trig), LOG2_SAMPLE, Forward, trig)
  }

  /** `analyzeSound` after acquisition; the frame read from the microphone is the parameter. */
  method AnalyzeSound(samples: seq<Complex>, trig: Trig) returns (spectrum: seq<Complex>)
    requires |samples| == LISTEN_SAMPLES
    ensures spectrum == Spectrum(samples, trig)
    ensures spectrum[0] == Zero
  {
    FrameLengthIsPowerOfTwo();
    var windowed := ApplyWindow(samples, LOG2_SAMPLE, Hamming, Forward, trig);
    spectrum := PerformFFT(windowed, LOG2_SAMPLE, Forward, trig);
  }

  /** `getRellevantInfo`: the first strict maximum of the real parts of bins
      [1, LISTEN_SAMPLES), with (0, 0) when no bin is positive. */
  method GetRelevantInfo(data: seq<Complex>) returns (maxA: real, maxI: int)
    requires |data| == LISTEN_SAMPLES
    ensures IsFirstPeak(data, LISTEN_SAMPLES, maxA, maxI)
  {
    maxA, maxI := 0.0, 0;
    var i := 1;
    while i < LISTEN_SAMPLES
      invariant 1 <= i <= LISTEN_SAMPLES
      invariant IsFirstPeak(data, i, maxA, maxI)
    {
      if data[i].re > maxA {
        maxA := data[i].re;
        maxI := i;
      }
      i := i + 1;
    }
  }

  // ---------------------------------------------------------------------
  // Alert matching

  /** C's conversion of a float to an int: truncation toward zero. */
  function TruncToInt(x: real): (r: int)
    ensures 0.0 <= x ==> r as real <= x < r as real + 1.0
    ensures x < 0.0 ==> r as real - 1.0 < x <= r as real
  {
    if x >= 0.0 then x.Floor else -((-x).Floor)
  }

  /** An alert fires when the peak bin is its mark and the peak amplitude is
      strictly above its threshold. */
  predicate Matches(a: AlertElement, maxA: real, maxI: int) {
    maxI == a.iteratorMark && maxA > a.minIntensity as real
  }

  predicate AnyMatchBelow(alerts: seq<AlertElement>, n: nat, maxA: real, maxI: int)
    requires n <= |alerts|
  {
    exists j :: 0 <= j < n && Matches(alerts[j], maxA, maxI)
  }

  predicate AnyMatch(alerts: seq<AlertElement>, maxA: real, maxI: int) {
    AnyMatchBelow(alerts, |alerts|, maxA, maxI)
  }

  /** The highest index below n of a firing alert. */
  function LastMatchBelow(alerts: seq<AlertElement>, n: nat, maxA: real, maxI: int): (last: nat)
    requires n <= |alerts| && AnyMatchBelow(alerts, n, maxA, maxI)
    ensures last < n && Matches(alerts[last], maxA, maxI)
    ensures forall j :: last < j < n ==> !Matches(alerts[j], maxA, maxI)
  {
    if Matches(alerts[n - 1], maxA, maxI) then n - 1
    else LastMatchBelow(alerts, n - 1, maxA, maxI)
  }

  /** The table after the alerts below n have been considered: each firing
      alert has its intensity marked; if any fired, the last of them is the
      only active one; otherwise every status is as it was. */
  function OutcomeBelow(alerts: seq<AlertElement>, n: nat, maxA: real, maxI: int): (out: seq<AlertElement>)
    requires n <= |alerts|
    ensures |out| == |alerts|
  {
    var any := AnyMatchBelow(alerts, n, maxA, maxI);
    seq(|alerts|, j requires 0 <= j < |alerts| =>
      alerts[j].(
        intensityMark := if j < n && Matches(alerts[j], maxA, maxI) then TruncToInt(maxA) else alerts[j].intensityMark,
        alertStatus := if any then j == LastMatchBelow(alerts, n, maxA, maxI) else alerts[j].alertStatus))
  }

  /** The table after `alertMatching`. */
  function MatchingOutcome(alerts: seq<AlertElement>, maxA: real, maxI: int): (out: seq<AlertElement>)
    ensures |out| == |alerts|
  {
    OutcomeBelow(alerts, |alerts|, maxA, maxI)
  }

  /** The inner loop of `alertMatching` (lines 202-204): every status but
      entry i's is cleared. */
  method ClearOthers(table: seq<AlertElement>, i: nat) returns (out: seq<AlertElement>)
    requires i < |table|
    ensures |out| == |table| && out[i] == table[i]
    ensures forall j :: 0 <= j < |table| && j != i ==> out[j] == table[j].(alertStatus := false)
  {
    out := table;
    var j := 0;
    while j < |table|
      invariant 0 <= j <= |table| && |out| == |table|
      invariant forall k :: 0 <= k < |table| ==>
        out[k] == if k < j && k != i then table[k].(alertStatus := false) else table[k]
    {
      if j != i {
        out := out[j := out[j].(alertStatus := false)];
      }
      j := j + 1;
    }
  }

  /** `alertMatching`: every alert in table order is tested against the peak;
      a firing alert is activated, marked with the truncated amplitude, and
      every other status is cleared. Returns whether any alert fired. */
  method AlertMatching(alerts: seq<AlertElement>, maxA: real, maxI: int)
    returns (alertMatch: bool, out: seq<AlertElement>)
    ensures alertMatch <==> AnyMatch(alerts, maxA, maxI)
    ensures out == MatchingOutcome(alerts, maxA, maxI)
  {
    alertMatch := false;
    out := alerts;
    var i := 0;
    while i < |alerts|
      invariant 0 <= i <= |alerts|
      invariant alertMatch <==> AnyMatchBelow(alerts, i, maxA, maxI)
      invariant out == OutcomeBelow(alerts, i, maxA, maxI)
    {
      if Matches(out[i], maxA, maxI) {
        alertMatch := true;
        out := out[i := out[i].(alertStatus := true, intensityMark := TruncToInt(maxA))];
        out := ClearOthers(out, i);
      }
      i := i + 1;
    }
  }

  // ---------------------------------------------------------------------
  // Properties of the alert update

  /** Number of active alerts. */
  function ActiveCount(table: seq<AlertElement>): (count: nat)
    ensures count <= |table|
  {
    if table == [] then 0
    else ActiveCount(table[..|table| - 1]) + if table[|table| - 1].alertStatus then 1 else 0
  }

  lemma {:induction false} ActiveCountOfOne(table: seq<AlertElement>, i: nat)
    requires i < |table|
    requires forall j :: 0 <= j < |table| ==> (table[j].alertStatus <==> j == i)
    ensures ActiveCount(table) == 1
  {
    var last := |table| - 1;
    var front := table[..last];
    if i == last {
      NoneActive(front);
    } else {
      ActiveCountOfOne(front, i);
    }
  }

  lemma {:induction false} NoneActive(table: seq<AlertElement>)
    requires forall j :: 0 <= j < |table| ==> !table[j].alertStatus
    ensures ActiveCount(table) == 0
  {
    if table != [] {
      NoneActive(table[..|table| - 1]);
    }
  }

  /** When an alert fires exactly one alert is active afterwards, the last
      firing one in table order, marked with the truncated amplitude; an
      earlier firing alert is marked too but left inactive. */
  lemma MatchActivatesLast(alerts: seq<AlertElement>, maxA: real, maxI: int)
    requires AnyMatch(alerts, maxA, maxI)
    ensures var out := MatchingOutcome(alerts, maxA, maxI);
      var last := LastMatchBelow(alerts, |alerts|, maxA, maxI);
      && ActiveCount(out) == 1
      && out[last].alertStatus
      && out[last].intensityMark == TruncToInt(maxA)
      && forall j :: 0 <= j < |alerts| && Matches(alerts[j], maxA, maxI) ==>
           out[j].intensityMark == TruncToInt(maxA) && (out[j].alertStatus <==> j == last)
  {
    var out := MatchingOutcome(alerts, maxA, maxI);
    ActiveCountOfOne(out, LastMatchBelow(alerts, |alerts|, maxA, maxI));
  }

  /** With no firing alert the table is returned exactly as it was: there is
      no reset of earlier statuses or marks. */
  lemma NoMatchKeepsTable(alerts: seq<AlertElement>, maxA: real, maxI: int)
    requires !AnyMatch(alerts, maxA, maxI)
    ensures MatchingOutcome(alerts, maxA, maxI) == alerts
  {
    var out := MatchingOutcome(alerts, maxA, maxI);
    forall j | 0 <= j < |alerts|
      ensures out[j] == alerts[j]
    {
    }
  }

  /** The fixed fields, including the informational frequency and the mark,
      are never written. */
  lemma MatchingKeepsFixedPart(alerts: seq<AlertElement>, maxA: real, maxI: int)
    ensures forall j :: 0 <= j < |alerts| ==> FixedPart(MatchingOutcome(alerts, maxA, maxI)[j]) == FixedPart(alerts[j])
  {
  }

  /** Matching again with the same peak changes nothing more. */
  lemma MatchingIdempotent(alerts: seq<AlertElement>, maxA: real, maxI: int)
    ensures MatchingOutcome(MatchingOutcome(alerts, maxA, maxI), maxA, maxI) == MatchingOutcome(alerts, maxA, maxI)
  {
    var once := MatchingOutcome(alerts, maxA, maxI);
    var twice := MatchingOutcome(once, maxA, maxI);
    assert forall j :: 0 <= j < |alerts| ==> (Matches(once[j], maxA, maxI) <==> Matches(alerts[j], maxA, maxI));
    if AnyMatch(alerts, maxA, maxI) {
      assert Matches(once[LastMatchBelow(alerts, |alerts|, maxA, maxI)], maxA, maxI);
      SameLastMatch(alerts, once, |alerts|, maxA, maxI);
    }
    forall j | 0 <= j < |alerts|
      ensures twice[j] == once[j]
    {
    }
  }

  /** Two tables that agree on which alerts fire agree on the last one. */
  lemma {:induction false} SameLastMatch(a: seq<AlertElement>, b: seq<AlertElement>, n: nat, maxA: real, maxI: int)
    requires n <= |a| == |b|
    requires forall j :: 0 <= j < n ==> (Matches(a[j], maxA, maxI) <==> Matches(b[j], maxA, maxI))
    requires AnyMatchBelow(a, n, maxA, maxI)
    ensures AnyMatchBelow(b, n, maxA, maxI)
    ensures LastMatchBelow(a, n, maxA, maxI) == LastMatchBelow(b, n, maxA, maxI)
  {
    var la := LastMatchBelow(a, n, maxA, maxI);
    assert Matches(b[la], maxA, maxI);
    if !Matches(a[n - 1], maxA, maxI) {
      SameLastMatch(a, b, n - 1, maxA, maxI);
    }
  }

  /** The frequency is informational: tables that differ only in it give the
      same verdict and the same outcome up to the frequency itself. */
  lemma MatchingIgnoresFreq(alerts: seq<AlertElement>, other: seq<AlertElement>, maxA: real, maxI: int)
    requires |other| == |alerts|
    requires forall j :: 0 <= j < |alerts| ==> other[j] == alerts[j].(freq := other[j].freq)
    ensures AnyMatch(other, maxA, maxI) <==> AnyMatch(alerts, maxA, maxI)
    ensures forall j :: 0 <= j < |alerts| ==>
      MatchingOutcome(other, maxA, maxI)[j] == MatchingOutcome(alerts, maxA, maxI)[j].(freq := other[j].freq)
  {
    assert forall j :: 0 <= j < |alerts| ==> (Matches(other[j], maxA, maxI) <==> Matches(alerts[j], maxA, maxI));
    if AnyMatch(alerts, maxA, maxI) {
      SameLastMatch(alerts, other, |alerts|, maxA, maxI);
    }
  }

  // ---------------------------------------------------------------------
  // One listening cycle

  /** The computational part of `listen`: analyse a frame, find its peak,
      update the alert table. */
  method ListenCycle(samples: seq<Complex>, alerts: seq<AlertElement>, trig: Trig)
    returns (alert: bool, maxA: real, maxI: int, out: seq<AlertElement>)
    requires |samples| == LISTEN_SAMPLES
    ensures IsFirstPeak(Spectrum(samples, trig), LISTEN_SAMPLES, maxA, maxI)
    ensures alert <==> AnyMatch(alerts, maxA, maxI)
    ensures out == MatchingOutcome(alerts, maxA, maxI)
  {
    var spectrum := AnalyzeSound(samples, trig);
    maxA, maxI := GetRelevantInfo(spectrum);
    alert, out := AlertMatching(alerts, maxA, maxI);
  }
}
