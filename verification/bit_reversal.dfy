/** Bit-reversal permutation (fft.cpp `rearrangeForIFFT`). */
module BitReversal {
  import opened ComplexNumbers
  import opened Bits

  /** The buffer whose entry k is the original entry at the bit-reversed index of k. */
  function BitReversed(data: seq<Complex>, log2N: nat): (out: seq<Complex>)
    requires |data| == Pow2(log2N)
    ensures |out| == |data|
  {
    seq(|data|, k requires 0 <= k < |data| => data[Rev(k, log2N)])
  }

  /** Line 57: `~i & (i + 1)` on a w-bit word, which isolates the lowest zero bit of i. */
  function LowestZeroBitOf(i: nat, w: nat): (lszb: nat)
    requires i + 1 < Pow2(w)
    ensures lszb == Pow2(TrailingOnes(i))
  {
    LowestZeroBit(i, w);
    And(Not(i, w), i + 1, w)
  }

  /** Lines 57-59 of the loop body: the mask of bits to flip in j, built
      with w-bit unsigned operations (the firmware's w is WORD = 32) from the lowest zero bit of i. */
  function FlipMask(i: nat, log2N: nat, w: nat): (bits: nat)
    requires log2N < w && i < Pow2(log2N)
    ensures bits < Pow2(log2N)
  {
    var n := Pow2(log2N);
    var nd2 := n / 2;
    Pow2Monotone(log2N, w - 1);
    var lszb := LowestZeroBitOf(i, w);
    DivBounds(nd2, lszb);
    var mszb := nd2 / lszb;
    KeepAbove(mszb, log2N, w)
  }

  /** Line 59: `Nm1 & ~(mszb - 1)`, with `mszb - 1` wrapping to all ones when mszb is 0. */
  function KeepAbove(mszb: nat, log2N: nat, w: nat): (bits: nat)
    requires log2N < w && mszb <= Pow2(log2N)
    ensures bits < Pow2(log2N)
  {
    var nm1 := Pow2(log2N) - 1;
    Pow2Monotone(log2N, w);
    AndFits(nm1, Not(Unsigned(mszb - 1, w), w), log2N, w);
    And(nm1, Not(Unsigned(mszb - 1, w), w), w)
  }

  /** Line 60: the next value of the reversed counter, `j ^= bits`. */
  function ReversedSuccessor(i: nat, j: nat, log2N: nat, w: nat): (j': nat)
    requires log2N < w && i < Pow2(log2N)
    ensures j' < Pow2(w)
  {
    Xor(j, FlipMask(i, log2N, w), w)
  }

  /** Line 58: N/2 divided by the lowest zero bit 2^t of i is 2^(L−1−t). */
  lemma MostSignificantFlip(t: nat, log2N: nat)
    requires t < log2N
    ensures (Pow2(log2N) / 2) / Pow2(t) == Pow2(log2N - 1 - t)
  {
    assert Pow2(log2N) / 2 == Pow2(log2N - 1);
    Pow2Divides(t, log2N - 1);
  }

  /** Line 59: N − 1 masked with the complement of 2^s − 1 keeps bits s..L−1. */
  lemma KeepAboveBits(mszb: nat, s: nat, log2N: nat, w: nat, k: nat)
    requires s < log2N < w && k < w && mszb == Pow2(s) <= Pow2(log2N)
    ensures Bit(KeepAbove(mszb, log2N, w), k) <==> s <= k < log2N
  {
    var low := Pow2(s) - 1;
    var nm1 := Pow2(log2N) - 1;
    Pow2Monotone(log2N, w);
    UnsignedOfLowMask(s, log2N, w);
    assert KeepAbove(mszb, log2N, w) == And(nm1, Not(low, w), w);
    BitOfAnd(nm1, Not(low, w), w, k);
    BitOfLowMask(log2N, k);
    BitOfNot(low, w, k);
    BitOfLowMask(s, k);
  }

  /** `mszb - 1` does not wrap when mszb = 2^s >= 1. */
  lemma UnsignedOfLowMask(s: nat, log2N: nat, w: nat)
    requires s < log2N < w
    ensures Pow2(s) - 1 < Pow2(w)
    ensures Unsigned(Pow2(s) - 1, w) == Pow2(s) - 1
  {
    Pow2Monotone(s, w);
  }

  /** The flip mask holds exactly the bits s..L−1, where s = L − 1 − t and
      t is the position of the lowest zero bit of i. */
  lemma FlipMaskBits(i: nat, log2N: nat, w: nat)
    requires log2N < w && i + 1 < Pow2(log2N)
    ensures TrailingOnes(i) < log2N
    ensures forall k :: 0 <= k < w ==>
      (Bit(FlipMask(i, log2N, w), k) <==> log2N - 1 - TrailingOnes(i) <= k < log2N)
  {
    var t := TrailingOnes(i);
    Pow2Monotone(log2N, w - 1);
    TrailingOnesBound(i, log2N);
    var s := log2N - 1 - t;
    MostSignificantFlip(t, log2N);
    var lszb := LowestZeroBitOf(i, w);
    assert lszb == Pow2(t);
    var mszb := (Pow2(log2N) / 2) / lszb;
    assert mszb == Pow2(s);
    Pow2Monotone(s, log2N);
    assert FlipMask(i, log2N, w) == KeepAbove(mszb, log2N, w);
    forall k | 0 <= k < w
      ensures Bit(FlipMask(i, log2N, w), k) <==> s <= k < log2N
    {
      KeepAboveBits(mszb, s, log2N, w, k);
    }
  }

  /** The lowest-zero-bit update turns the reversal of i into the reversal of i + 1. */
  lemma ReversedSuccessorIsNextReversal(i: nat, log2N: nat, w: nat)
    requires log2N < w && i + 1 < Pow2(log2N)
    ensures Rev(i, log2N) < Pow2(w)
    ensures ReversedSuccessor(i, Rev(i, log2N), log2N, w) == Rev(i + 1, log2N)
  {
    var L := log2N;
    Pow2Monotone(L, w);
    var j := Rev(i, L);
    var bits := FlipMask(i, L, w);
    var j' := Xor(j, bits, w);
    forall k | 0 <= k < w
      ensures Bit(j', k) == Bit(Rev(i + 1, L), k)
    {
      SuccessorBit(i, L, w, k);
    }
    BitsDetermine(j', Rev(i + 1, L), w);
  }

  /** One bit of the update: below L it flips exactly where the reversals
      of i and i + 1 differ, and above L both are clear. */
  lemma SuccessorBit(i: nat, L: nat, w: nat, k: nat)
    requires L < w && i + 1 < Pow2(L) && k < w
    ensures Bit(Xor(Rev(i, L), FlipMask(i, L, w), w), k) == Bit(Rev(i + 1, L), k)
  {
    FlipMaskBits(i, L, w);
    var j := Rev(i, L);
    BitOfXor(j, FlipMask(i, L, w), w, k);
    if k < L {
      BitOfRev(i, L, k);
      BitOfRev(i + 1, L, k);
      BitsOfSuccessor(i, L - 1 - k);
    } else {
      BitHigh(j, L, k);
      BitHigh(Rev(i + 1, L), L, k);
    }
  }

  /** The swap of lines 52-56: entries i and j trade places when j > i. */
  function SwapIfAbove(buf: seq<Complex>, i: nat, j: nat): (out: seq<Complex>)
    requires i < |buf| && j < |buf|
    ensures |out| == |buf| && multiset(out) == multiset(buf)
  {
    if j > i then buf[i := buf[j]][j := buf[i]] else buf
  }

  /** The permutation loop's progress after indices below i: an entry whose
      index or reversed index is below i holds its final value, every other
      entry its original one. */
  ghost predicate SwappedBelow(out: seq<Complex>, data: seq<Complex>, i: nat, log2N: nat)
    requires |data| == Pow2(log2N)
  {
    && |out| == |data|
    && forall k :: 0 <= k < |data| ==>
         out[k] == if k < i || Rev(k, log2N) < i then data[Rev(k, log2N)] else data[k]
  }

  /** One iteration: swapping i with rev(i) when rev(i) > i extends the progress to i + 1. */
  lemma SwapStep(out: seq<Complex>, data: seq<Complex>, i: nat, log2N: nat)
    requires |data| == Pow2(log2N) && i < |data|
    requires SwappedBelow(out, data, i, log2N)
    ensures SwappedBelow(SwapIfAbove(out, i, Rev(i, log2N)), data, i + 1, log2N)
  {
    forall k | 0 <= k < |data|
      ensures SwapIfAbove(out, i, Rev(i, log2N))[k]
        == if k < i + 1 || Rev(k, log2N) < i + 1 then data[Rev(k, log2N)] else data[k]
    {
      SwapStepAt(out, data, i, log2N, k);
    }
  }

  /** SwapStep at one index k. */
  lemma SwapStepAt(out: seq<Complex>, data: seq<Complex>, i: nat, log2N: nat, k: nat)
    requires |data| == Pow2(log2N) && i < |data| && k < |data|
    requires SwappedBelow(out, data, i, log2N)
    ensures SwapIfAbove(out, i, Rev(i, log2N))[k]
      == if k < i + 1 || Rev(k, log2N) < i + 1 then data[Rev(k, log2N)] else data[k]
  {
    RevInvolution(i, log2N);
    RevInvolution(k, log2N);
  }

  /** Once every index is done, the buffer is the permutation. */
  lemma SwappedAll(out: seq<Complex>, data: seq<Complex>, log2N: nat)
    requires |data| == Pow2(log2N)
    requires SwappedBelow(out, data, |data|, log2N)
    ensures out == BitReversed(data, log2N)
  {
  }

  /** `rearrangeForIFFT` with the loop counter i starting at 0: swap entries
      i and j whenever j > i, j running through the bit reversals of i. */
  method Rearrange(data: seq<Complex>, log2N: nat) returns (out: seq<Complex>)
    requires log2N < WORD && |data| == Pow2(log2N)
    ensures out == BitReversed(data, log2N)
    ensures multiset(out) == multiset(data)
  {
    var n := |data|;  // N = 2^log2N
    Pow2Monotone(log2N, WORD);
    RevOfZero(0, log2N);
    out := data;
    var i: nat, j: nat := 0, 0;
    while i < n
      invariant i <= n
      invariant i < n ==> j == Rev(i, log2N)
      invariant SwappedBelow(out, data, i, log2N)
      invariant multiset(out) == multiset(data)
    {
      SwapStep(out, data, i, log2N);
      ghost var next := SwapIfAbove(out, i, j);
      if j > i {
        var tmp := out[i];
        out := out[i := out[j]];
        out := out[j := tmp];
      }
      assert out == next;
      if i + 1 < n {
        ReversedSuccessorIsNextReversal(i, log2N, WORD);
      }
      j := ReversedSuccessor(i, j, log2N, WORD);
      i := i + 1;
    }
    SwappedAll(out, data, log2N);
  }

  /** Applying the permutation twice gives the buffer back. */
  lemma BitReversedInvolution(data: seq<Complex>, log2N: nat)
    requires |data| == Pow2(log2N)
    ensures BitReversed(BitReversed(data, log2N), log2N) == data
  {
    var once := BitReversed(data, log2N);
    var twice := BitReversed(once, log2N);
    forall k | 0 <= k < |data|
      ensures twice[k] == data[k]
    {
      RevInvolution(k, log2N);
    }
  }

  /** `rearrangeForIFFT` as written: the declaration `unsigned int i, j = 0`
      leaves i uninitialised, so the loop starts from whatever value i0 it
      holds, with j = 0. Entries below i0 are never touched; from i0 >= 2 on
      entry 1 keeps its original value, which the permutation moves away. */
  method RearrangeAsWritten(data: seq<Complex>, log2N: nat, i0: nat) returns (out: seq<Complex>)
    requires log2N < WORD && |data| == Pow2(log2N)
    ensures |out| == |data|
    ensures forall k :: 0 <= k < i0 && k < |data| ==> out[k] == data[k]
    ensures 2 <= i0 && 2 <= log2N && data[1] != data[Pow2(log2N - 1)] ==> out != BitReversed(data, log2N)
  {
    var n := |data|;  // N = 2^log2N
    out := data;
    var i: nat, j: nat := i0, 0;
    while i < n
      invariant |out| == n
      invariant j < n
      invariant forall k :: 0 <= k < i0 && k < n ==> out[k] == data[k]
    {
      if j > i {
        var tmp := out[i];
        out := out[i := out[j]];
        out := out[j := tmp];
      }
      SuccessorStaysInRange(i, j, log2N, WORD);
      j := ReversedSuccessor(i, j, log2N, WORD);
      i := i + 1;
    }
    if 2 <= i0 && 2 <= log2N {
      EntryOneMoves(data, log2N);
    }
  }

  /** The permutation sends entry 2^(L−1) to index 1. */
  lemma EntryOneMoves(data: seq<Complex>, log2N: nat)
    requires 1 <= log2N && |data| == Pow2(log2N)
    ensures Pow2(log2N - 1) < |data|
    ensures BitReversed(data, log2N)[1] == data[Pow2(log2N - 1)]
  {
    RevOfOne(log2N);
  }

  /** The counter update never leaves [0, N): it only flips bits below log2N. */
  lemma SuccessorStaysInRange(i: nat, j: nat, log2N: nat, w: nat)
    requires log2N < w && i < Pow2(log2N) && j < Pow2(log2N)
    ensures ReversedSuccessor(i, j, log2N, w) < Pow2(log2N)
  {
    XorFits(j, FlipMask(i, log2N, w), log2N, w);
  }

  /** Index 1 reverses to the top bit 2^(L−1). */
  lemma RevOfOne(log2N: nat)
    requires log2N >= 1
    ensures Rev(1, log2N) == Pow2(log2N - 1)
  {
    RevOfZero(0, log2N - 1);
  }

  lemma {:induction false} RevOfZero(x: nat, b: nat)
    requires x == 0
    ensures Rev(x, b) == 0
  {
    if b > 0 {
      RevOfZero(x / 2, b - 1);
    }
  }
}
