/** The butterfly transform is linear before bin 0 is cleared, and so is
    `performFFT` as a whole: transforming a sum gives the sum of the
    transforms, and transforming c times a frame gives c times its transform.
    Nothing here depends on the values of cos and sin. */
module Linearity {
  import opened ComplexNumbers
  import opened Bits
  import opened FftTypes
  import opened BitReversal
  import opened Butterfly
  import opened Fft

  /** Sample-wise sum of two frames of equal length. */
  function SeqAdd(a: seq<Complex>, b: seq<Complex>): (out: seq<Complex>)
    requires |a| == |b|
    ensures |out| == |a|
  {
    seq(|a|, i requires 0 <= i < |a| => Add(a[i], b[i]))
  }

  /** Every sample multiplied by the complex factor c. */
  function SeqMul(c: Complex, a: seq<Complex>): (out: seq<Complex>)
    ensures |out| == |a|
  {
    seq(|a|, i requires 0 <= i < |a| => Mul(c, a[i]))
  }

  // ---------------------------------------------------------------------
  // One stage

  lemma StageEntryAdditive(a: seq<Complex>, b: seq<Complex>, h: nat, w: Complex, idx: nat)
    requires h >= 1 && |a| % (2 * h) == 0 && |b| == |a| && idx < |a|
    ensures StageEntry(SeqAdd(a, b), h, w, idx) == Add(StageEntry(a, h, w, idx), StageEntry(b, h, w, idx))
  {
    var k := idx % (2 * h);
    BlockFits(idx, 2 * h, |a|);
    if k < h {
      MulAddDistributes(Pow(w, k), a[idx + h], b[idx + h]);
    } else {
      MulAddDistributes(Pow(w, k - h), a[idx], b[idx]);
    }
  }

  lemma StageEntryHomogeneous(c: Complex, a: seq<Complex>, h: nat, w: Complex, idx: nat)
    requires h >= 1 && |a| % (2 * h) == 0 && idx < |a|
    ensures StageEntry(SeqMul(c, a), h, w, idx) == Mul(c, StageEntry(a, h, w, idx))
  {
    var k := idx % (2 * h);
    BlockFits(idx, 2 * h, |a|);
    if k < h {
      var t := Mul(Pow(w, k), a[idx + h]);
      MulSwapsFactors(Pow(w, k), c, a[idx + h]);
      MulAddDistributes(c, a[idx], t);
    } else {
      var t := Mul(Pow(w, k - h), a[idx]);
      MulSwapsFactors(Pow(w, k - h), c, a[idx]);
      MulSubDistributes(c, a[idx - h], t);
    }
  }

  /** One stage maps a sum of buffers to the sum of their stages. */
  lemma StageAdditive(a: seq<Complex>, b: seq<Complex>, h: nat, w: Complex)
    requires h >= 1 && |a| % (2 * h) == 0 && |b| == |a|
    ensures StageSpec(SeqAdd(a, b), h, w) == SeqAdd(StageSpec(a, h, w), StageSpec(b, h, w))
  {
    forall idx | 0 <= idx < |a|
      ensures StageSpec(SeqAdd(a, b), h, w)[idx] == SeqAdd(StageSpec(a, h, w), StageSpec(b, h, w))[idx]
    {
      StageEntryAdditive(a, b, h, w, idx);
    }
  }

  /** One stage commutes with multiplying every sample by c. */
  lemma StageHomogeneous(c: Complex, a: seq<Complex>, h: nat, w: Complex)
    requires h >= 1 && |a| % (2 * h) == 0
    ensures StageSpec(SeqMul(c, a), h, w) == SeqMul(c, StageSpec(a, h, w))
  {
    forall idx | 0 <= idx < |a|
      ensures StageSpec(SeqMul(c, a), h, w)[idx] == SeqMul(c, StageSpec(a, h, w))[idx]
    {
      StageEntryHomogeneous(c, a, h, w, idx);
    }
  }

  // ---------------------------------------------------------------------
  // All stages, and the composed transform

  lemma {:induction false} StagesAdditive(a: seq<Complex>, b: seq<Complex>, log2N: nat, r: nat, dir: Direction, trig: Trig)
    requires |a| == Pow2(log2N) && |b| == |a| && r <= log2N
    ensures Stages(SeqAdd(a, b), log2N, r, dir, trig) == SeqAdd(Stages(a, log2N, r, dir, trig), Stages(b, log2N, r, dir, trig))
  {
    if r > 0 {
      StagesAdditive(a, b, log2N, r - 1, dir, trig);
      Pow2Divides(r, log2N);
      StageAdditive(Stages(a, log2N, r - 1, dir, trig), Stages(b, log2N, r - 1, dir, trig), Pow2(r - 1), StageRoot(trig, dir, r));
    }
  }

  lemma {:induction false} StagesHomogeneous(c: Complex, a: seq<Complex>, log2N: nat, r: nat, dir: Direction, trig: Trig)
    requires |a| == Pow2(log2N) && r <= log2N
    ensures Stages(SeqMul(c, a), log2N, r, dir, trig) == SeqMul(c, Stages(a, log2N, r, dir, trig))
  {
    if r > 0 {
      StagesHomogeneous(c, a, log2N, r - 1, dir, trig);
      Pow2Divides(r, log2N);
      StageHomogeneous(c, Stages(a, log2N, r - 1, dir, trig), Pow2(r - 1), StageRoot(trig, dir, r));
    }
  }

  /** The bare transform `evaluateFFT ∘ rearrangeForIFFT` is linear. */
  lemma EvaluatedLinear(a: seq<Complex>, b: seq<Complex>, c: Complex, log2N: nat, dir: Direction, trig: Trig)
    requires |a| == Pow2(log2N) && |b| == |a|
    ensures Evaluated(SeqAdd(a, b), log2N, dir, trig) == SeqAdd(Evaluated(a, log2N, dir, trig), Evaluated(b, log2N, dir, trig))
    ensures Evaluated(SeqMul(c, a), log2N, dir, trig) == SeqMul(c, Evaluated(a, log2N, dir, trig))
  {
    assert BitReversed(SeqAdd(a, b), log2N) == SeqAdd(BitReversed(a, log2N), BitReversed(b, log2N));
    assert BitReversed(SeqMul(c, a), log2N) == SeqMul(c, BitReversed(a, log2N));
    StagesAdditive(BitReversed(a, log2N), BitReversed(b, log2N), log2N, log2N, dir, trig);
    StagesHomogeneous(c, BitReversed(a, log2N), log2N, log2N, dir, trig);
  }

  /** `performFFT` is linear too: clearing bin 0 keeps sums and multiples. */
  lemma TransformLinear(a: seq<Complex>, b: seq<Complex>, c: Complex, log2N: nat, dir: Direction, trig: Trig)
    requires |a| == Pow2(log2N) && |b| == |a|
    ensures Transform(SeqAdd(a, b), log2N, dir, trig) == SeqAdd(Transform(a, log2N, dir, trig), Transform(b, log2N, dir, trig))
    ensures Transform(SeqMul(c, a), log2N, dir, trig) == SeqMul(c, Transform(a, log2N, dir, trig))
  {
    EvaluatedLinear(a, b, c, log2N, dir, trig);
    assert Add(Zero, Zero) == Zero && Mul(c, Zero) == Zero;
  }
}
