/** The composed transform (fft.cpp `performFFT`). */
module Fft {
  import opened ComplexNumbers
  import opened Bits
  import opened FftTypes
  import opened BitReversal
  import opened Butterfly

  /** The bare transform `evaluateFFT ∘ rearrangeForIFFT`, without the DC post-operation. */
  function Evaluated(data: seq<Complex>, log2N: nat, dir: Direction, trig: Trig): (out: seq<Complex>)
    requires |data| == Pow2(log2N)
    ensures |out| == |data|
  {
    Stages(BitReversed(data, log2N), log2N, log2N, dir, trig)
  }

  /** The result of `performFFT`: the bare transform with bin 0 cleared. */
  function Transform(data: seq<Complex>, log2N: nat, dir: Direction, trig: Trig): (out: seq<Complex>)
    requires |data| == Pow2(log2N)
    ensures |out| == |data|
  {
    Evaluated(data, log2N, dir, trig)[0 := Zero]
  }

  /** `performFFT`: permute, run the stages, then multiply bin 0 by 0.0. In
      both directions bin 0 ends at zero and every other bin holds the bare
      transform's value. */
  method PerformFFT(data: seq<Complex>, log2N: nat, dir: Direction, trig: Trig) returns (out: seq<Complex>)
    requires log2N < WORD && |data| == Pow2(log2N)
    ensures |out| == |data|
    ensures out[0] == Zero
    ensures forall k :: 1 <= k < |out| ==> out[k] == Evaluated(data, log2N, dir, trig)[k]
    ensures out == Transform(data, log2N, dir, trig)
  {
    var permuted := Rearrange(data, log2N);
    out := EvaluateFFT(permuted, log2N, dir, trig);
    out := out[0 := Scale(out[0], 0.0)];
  }

  /** `performFFT` differs from the bare transform in bin 0 alone. */
  lemma TransformDiffersOnlyAtZero(data: seq<Complex>, log2N: nat, dir: Direction, trig: Trig)
    requires |data| == Pow2(log2N)
    ensures Transform(data, log2N, dir, trig)[0] == Zero
    ensures forall k :: 1 <= k < |data| ==> Transform(data, log2N, dir, trig)[k] == Evaluated(data, log2N, dir, trig)[k]
    ensures Evaluated(data, log2N, dir, trig)[0] == Zero ==> Transform(data, log2N, dir, trig) == Evaluated(data, log2N, dir, trig)
  {
  }

  /** A one-sample buffer transforms to [0]. */
  lemma OnePointTransform(a: Complex, dir: Direction, trig: Trig)
    ensures Transform([a], 0, dir, trig) == [Zero]
  {
  }

  /** For N = 2 the transform of [a, b] is [0, a − b] in either direction:
      the single butterfly uses w^0 = 1. */
  lemma TwoPointTransform(a: Complex, b: Complex, dir: Direction, trig: Trig)
    ensures Transform([a, b], 1, dir, trig) == [Zero, Sub(a, b)]
  {
    var data := [a, b];
    RevOfZero(0, 1);
    assert Rev(1, 1) == 1;
    assert BitReversed(data, 1) == data;
    Pow2Divides(1, 1);
    EntriesAt(data, 1, StageRoot(trig, dir, 1), 0, 0);
    assert Stages(data, 1, 1, dir, trig)[1] == Sub(a, Mul(One, b));
    MulByOne(b);
  }

  /** With stage roots on the unit circle the bare transform loses nothing:
      undoing the stages and then permuting again gives the input back. */
  lemma EvaluatedInvertible(data: seq<Complex>, log2N: nat, dir: Direction, trig: Trig)
    requires |data| == Pow2(log2N) && UnitRoots(trig, dir, log2N)
    ensures BitReversed(UnStages(Evaluated(data, log2N, dir, trig), log2N, log2N, dir, trig), log2N) == data
  {
    StagesInvertible(BitReversed(data, log2N), log2N, log2N, dir, trig);
    BitReversedInvolution(data, log2N);
  }
}
