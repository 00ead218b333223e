/** The recursive (decimation-in-time) Cooley–Tukey transform, and the fact
    that `evaluateFFT` on the bit-reversed buffer computes it: the iterative
    network is the recursion unrolled bottom-up. Both use the same stage
    roots, so the agreement holds whatever values cos and sin take. */
module CooleyTukey {
  import opened ComplexNumbers
  import opened Bits
  import opened FftTypes
  import opened BitReversal
  import opened Butterfly
  import opened Fft

  // ---------------------------------------------------------------------
  // Subsequences

  /** q shifted left by r bits, q·2^r, by doubling q r times (no
      multiplication of unknowns). */
  function Shifted(q: nat, r: nat): nat
    decreases r
  {
    if r == 0 then q else Shifted(2 * q, r - 1)
  }

  lemma {:induction false} ShiftedSucc(q: nat, r: nat)
    ensures Shifted(q + 1, r) == Shifted(q, r) + Pow2(r)
    decreases r
  {
    if r > 0 {
      ShiftedSucc(2 * q + 1, r - 1);
      ShiftedSucc(2 * q, r - 1);
      assert 2 * (q + 1) == 2 * q + 1 + 1;
    }
  }

  lemma {:induction false} ShiftedIsProduct(q: nat, r: nat)
    ensures Shifted(q, r) == q * Pow2(r)
    decreases r
  {
    if r > 0 {
      ShiftedIsProduct(2 * q, r - 1);
      assert (2 * q) * Pow2(r - 1) == q * (2 * Pow2(r - 1));
    }
  }

  lemma SubSignalFits(L: nat, b: nat, off: nat, t: nat)
    requires b <= L && off < Pow2(b) && t < Pow2(L - b)
    ensures off + Shifted(t, b) < Pow2(L)
  {
    SubBlockFits(L, b, t);
  }

  /** The 2^(L−b) samples x[off], x[off + 2^b], x[off + 2·2^b], … of a
      buffer of 2^L samples. */
  function SubSignal(x: seq<Complex>, L: nat, b: nat, off: nat): (y: seq<Complex>)
    requires |x| == Pow2(L) && b <= L && off < Pow2(b)
    ensures |y| == Pow2(L - b)
  {
    seq(Pow2(L - b), t requires 0 <= t < Pow2(L - b) => SubSignalFits(L, b, off, t); x[off + Shifted(t, b)])
  }

  /** The even-indexed (p = 0) or odd-indexed (p = 1) samples of y. */
  function Decimate(y: seq<Complex>, p: nat): (out: seq<Complex>)
    requires p < 2 && |y| % 2 == 0
    ensures |out| == |y| / 2
  {
    seq(|y| / 2, t requires 0 <= t < |y| / 2 => y[2 * t + p])
  }

  /** Every other sample of a subsequence of stride 2^b is a subsequence of
      stride 2^(b+1), starting at the same or the next sample. */
  lemma DecimateSubSignal(x: seq<Complex>, L: nat, b: nat, off: nat)
    requires |x| == Pow2(L) && b < L && off < Pow2(b)
    ensures Pow2(L - b) == 2 * Pow2(L - (b + 1))
    ensures off + Pow2(b) < Pow2(b + 1)
    ensures Decimate(SubSignal(x, L, b, off), 0) == SubSignal(x, L, b + 1, off)
    ensures Decimate(SubSignal(x, L, b, off), 1) == SubSignal(x, L, b + 1, off + Pow2(b))
  {
    assert L - b == (L - (b + 1)) + 1;
    var y := SubSignal(x, L, b, off);
    var s := Pow2(b);
    assert Pow2(b + 1) == 2 * s;
    forall t | 0 <= t < Pow2(L - (b + 1))
      ensures Decimate(y, 0)[t] == SubSignal(x, L, b + 1, off)[t]
      ensures Decimate(y, 1)[t] == SubSignal(x, L, b + 1, off + s)[t]
    {
      assert Shifted(t, b + 1) == Shifted(2 * t, b);
      ShiftedSucc(2 * t, b);
    }
  }

  // ---------------------------------------------------------------------
  // The recursive transform

  /** Merging the transforms e and o of the even and odd halves with root w:
      bin i takes e[i] + w^i·o[i], bin i + h takes e[i] − w^i·o[i]. */
  function Combine(e: seq<Complex>, o: seq<Complex>, w: Complex): (out: seq<Complex>)
    requires |e| == |o|
    ensures |out| == 2 * |e|
  {
    var h := |e|;
    seq(2 * h, i requires 0 <= i < 2 * h =>
      if i < h then Add(e[i], Mul(Pow(w, i), o[i])) else Sub(e[i - h], Mul(Pow(w, i - h), o[i - h])))
  }

  /** The transform of 2^s samples: the transforms of the even and odd
      samples, merged with the root of stage s. */
  function RecursiveFFT(y: seq<Complex>, s: nat, dir: Direction, trig: Trig): (out: seq<Complex>)
    requires |y| == Pow2(s)
    ensures |out| == |y|
    decreases s
  {
    if s == 0 then y
    else
      Combine(RecursiveFFT(Decimate(y, 0), s - 1, dir, trig), RecursiveFFT(Decimate(y, 1), s - 1, dir, trig),
              StageRoot(trig, dir, s))
  }

  // ---------------------------------------------------------------------
  // The iterative network computes it

  /** Block q of 2^r entries, among 2^(L−r), fits in the buffer. */
  lemma SubBlockFits(L: nat, r: nat, q: nat)
    requires r <= L && q < Pow2(L - r)
    ensures Shifted(q, r) + Pow2(r) <= Pow2(L)
  {
    ShiftedIsProduct(q, r);
    Pow2Add(L - r, r);
    assert L - r + r == L;
    MulMonotone(q + 1, Pow2(L - r), Pow2(r));
  }

  /** Entry t of F, named so that claims about whole blocks are used only
      where an entry is asked for. */
  function Entry(F: seq<Complex>, t: nat): Complex
    requires t < |F|
  {
    F[t]
  }

  /** Block n of A, of |F| entries, holds F. */
  ghost predicate Holds(A: seq<Complex>, n: nat, F: seq<Complex>) {
    n + |F| <= |A| && forall t :: 0 <= t < |F| ==> A[n + t] == Entry(F, t)
  }

  lemma HoldsTransfer(A: seq<Complex>, A': seq<Complex>, F: seq<Complex>, F': seq<Complex>, n: nat)
    requires A' == A && F' == F && Holds(A, n, F)
    ensures Holds(A', n, F')
  {
  }

  /** A stage seen entry by entry: if the two halves of the block starting
      at n hold e and o, the stage leaves at offset t of it entry t of the
      merge of e and o. */
  lemma StageMergesHalves(a: seq<Complex>, h: nat, w: Complex, n: nat, t: nat, e: seq<Complex>, o: seq<Complex>)
    requires h >= 1 && |a| % (2 * h) == 0 && n + 2 * h <= |a| && t < 2 * h && (n + t) % (2 * h) == t
    requires |e| == h && |o| == h
    requires var t' := if t < h then t else t - h; a[n + t'] == e[t'] && a[n + h + t'] == o[t']
    ensures StageSpec(a, h, w)[n + t] == Combine(e, o, w)[t]
  {
    assert StageSpec(a, h, w)[n + t] == StageEntry(a, h, w, n + t);
  }

  /** A stage seen block by block: if the two halves of block q (of 2h
      entries) hold e and o, the stage leaves in the block the merge of e
      and o with twiddle w. */
  lemma StageMergesBlocks(a: seq<Complex>, h: nat, w: Complex, q: nat, m: nat, n: nat, e: seq<Complex>, o: seq<Complex>)
    requires h >= 1 && m == 2 * h && |a| % m == 0 && n == q * m
    requires |e| == h && |o| == h && Holds(a, n, e) && Holds(a, n + h, o)
    ensures Holds(StageSpec(a, h, w), n, Combine(e, o, w))
  {
    forall t | 0 <= t < 2 * h
      ensures StageSpec(a, h, w)[n + t] == Entry(Combine(e, o, w), t)
    {
      OffsetOf(n + t, q, t, h);
      var t' := if t < h then t else t - h;
      assert a[n + t'] == Entry(e, t');
      assert a[n + h + t'] == Entry(o, t');
      StageMergesHalves(a, h, w, n, t, e, o);
    }
  }

  /** The buffer after r stages on the bit-reversed input. */
  ghost function Net(x: seq<Complex>, L: nat, r: nat, dir: Direction, trig: Trig): (out: seq<Complex>)
    requires |x| == Pow2(L) && r <= L
    ensures |out| == |x|
  {
    Stages(BitReversed(x, L), L, r, dir, trig)
  }

  /** The recursive transform of the 2^(L−b) samples off, off + 2^b,
      off + 2·2^b, … of the input. */
  ghost function Rec(x: seq<Complex>, L: nat, b: nat, off: nat, dir: Direction, trig: Trig): (out: seq<Complex>)
    requires |x| == Pow2(L) && b <= L && off < Pow2(b)
    ensures |out| == Pow2(L - b)
  {
    RecursiveFFT(SubSignal(x, L, b, off), L - b, dir, trig)
  }

  /** Stage r applied to the buffer after r − 1 stages. */
  lemma NetSplits(x: seq<Complex>, L: nat, r: nat, dir: Direction, trig: Trig, h: nat, w: Complex)
    requires |x| == Pow2(L) && 1 <= r <= L && h == Pow2(r - 1) && w == StageRoot(trig, dir, r)
    ensures Pow2(L) % (2 * h) == 0
    ensures Net(x, L, r, dir, trig) == StageSpec(Net(x, L, r - 1, dir, trig), h, w)
  {
    Pow2Divides(r, L);
  }

  /** One level of the recursion on a subsequence. */
  lemma RecUnfolds(x: seq<Complex>, L: nat, b: nat, dir: Direction, trig: Trig, off: nat)
    requires |x| == Pow2(L) && b < L && off < Pow2(b)
    ensures |SubSignal(x, L, b, off)| == 2 * Pow2(L - b - 1)
    ensures Rec(x, L, b, off, dir, trig)
         == Combine(RecursiveFFT(Decimate(SubSignal(x, L, b, off), 0), L - b - 1, dir, trig),
                    RecursiveFFT(Decimate(SubSignal(x, L, b, off), 1), L - b - 1, dir, trig),
                    StageRoot(trig, dir, L - b))
  {
  }

  /** The even (p = 0) or odd (p = 1) samples of a subsequence of stride
      2^b form the subsequence of stride 2^(b+1) at off or off + 2^b. */
  lemma RecOfHalf(x: seq<Complex>, L: nat, b: nat, dir: Direction, trig: Trig, off: nat, p: nat, off': nat)
    requires |x| == Pow2(L) && b < L && off < Pow2(b) && p < 2
    requires off' == if p == 0 then off else off + Pow2(b)
    ensures |SubSignal(x, L, b, off)| == 2 * Pow2(L - b - 1) && off' < Pow2(b + 1)
    ensures RecursiveFFT(Decimate(SubSignal(x, L, b, off), p), L - b - 1, dir, trig) == Rec(x, L, b + 1, off', dir, trig)
  {
    DecimateSubSignal(x, L, b, off);
    assert L - (b + 1) == L - b - 1;
  }

  /** The recursive transform of the subsequence of stride 2^b at off
      merges those of its even samples (stride 2^(b+1) at off) and its odd
      samples (stride 2^(b+1) at off1 = off + 2^b). */
  lemma RecSplits(x: seq<Complex>, L: nat, b: nat, dir: Direction, trig: Trig, off: nat, off1: nat, w: Complex)
    requires |x| == Pow2(L) && b < L && off < Pow2(b) && off1 == off + Pow2(b) && w == StageRoot(trig, dir, L - b)
    ensures off1 < Pow2(b + 1)
    ensures Rec(x, L, b, off, dir, trig) == Combine(Rec(x, L, b + 1, off, dir, trig), Rec(x, L, b + 1, off1, dir, trig), w)
  {
    RecUnfolds(x, L, b, dir, trig, off);
    RecOfHalf(x, L, b, dir, trig, off, 0, off);
    RecOfHalf(x, L, b, dir, trig, off, 1, off1);
  }

  /** Stage r on the bit-reversed buffer, block by block: if after r − 1
      stages the two halves of the block starting at n hold the recursive
      transforms of the even and the odd samples of a subsequence, after
      stage r the block holds the recursive transform of the subsequence. */
  lemma StageOfBlocks(x: seq<Complex>, L: nat, r: nat, b: nat, dir: Direction, trig: Trig,
                      q: nat, n: nat, off: nat, n1: nat, off1: nat)
    requires |x| == Pow2(L) && 1 <= r && r + b == L && n == Shifted(q, r) && off < Pow2(b)
    requires n1 == n + Pow2(r - 1) && off1 == off + Pow2(b) && off1 < Pow2(b + 1)
    requires Holds(Net(x, L, r - 1, dir, trig), n, Rec(x, L, b + 1, off, dir, trig))
    requires Holds(Net(x, L, r - 1, dir, trig), n1, Rec(x, L, b + 1, off1, dir, trig))
    ensures Holds(Net(x, L, r, dir, trig), n, Rec(x, L, b, off, dir, trig))
  {
    var h := Pow2(r - 1);
    var w := StageRoot(trig, dir, r);
    var a := Net(x, L, r - 1, dir, trig);
    var e := Rec(x, L, b + 1, off, dir, trig);
    var o := Rec(x, L, b + 1, off1, dir, trig);
    NetSplits(x, L, r, dir, trig, h, w);
    RecSplits(x, L, b, dir, trig, off, off1, w);
    ShiftedIsProduct(q, r);
    StageMergesBlocks(a, h, w, q, Pow2(r), n, e, o);
    HoldsTransfer(StageSpec(a, h, w), Net(x, L, r, dir, trig), Combine(e, o, w), Rec(x, L, b, off, dir, trig), n);
  }

  /** Block q of 2^r entries splits into blocks 2q and 2q + 1 of 2^(r−1)
      entries; reversing one more bit puts their subsequences at off and
      off + 2^b. */
  lemma ChildBlocks(q: nat, r: nat, b: nat, n: nat, off: nat, n1: nat, off1: nat)
    requires 1 <= r && q < Pow2(b) && n == Shifted(q, r) && off == Rev(q, b)
    requires n1 == n + Pow2(r - 1) && off1 == off + Pow2(b)
    ensures 2 * q + 1 < Pow2(b + 1)
    ensures Shifted(2 * q, r - 1) == n && Shifted(2 * q + 1, r - 1) == n1
    ensures Rev(2 * q, b + 1) == off && Rev(2 * q + 1, b + 1) == off1
  {
    ShiftedSucc(2 * q, r - 1);
  }

  /** After r stages on the bit-reversed buffer, block q (of 2^r entries,
      starting at n) holds the recursive transform of the samples off,
      off + 2^b, off + 2·2^b, … of the input, where b = L − r and off is
      q with its b bits reversed. */
  lemma {:induction false} BlockIsRecursive(x: seq<Complex>, L: nat, r: nat, b: nat, dir: Direction, trig: Trig,
                                           q: nat, n: nat, off: nat)
    requires |x| == Pow2(L) && r + b == L && q < Pow2(b)
    requires n == Shifted(q, r) && off == Rev(q, b)
    ensures off < Pow2(b) && n + Pow2(r) <= |x|
    ensures Holds(Net(x, L, r, dir, trig), n, Rec(x, L, b, off, dir, trig))
    decreases r
  {
    SubBlockFits(L, r, q);
    if r == 0 {
      ShiftedIsProduct(0, b);
      assert Net(x, L, 0, dir, trig)[n + 0] == Entry(Rec(x, L, b, off, dir, trig), 0);
    } else {
      var n1, off1 := n + Pow2(r - 1), off + Pow2(b);
      ChildBlocks(q, r, b, n, off, n1, off1);
      BlockIsRecursive(x, L, r - 1, b + 1, dir, trig, 2 * q, n, off);
      BlockIsRecursive(x, L, r - 1, b + 1, dir, trig, 2 * q + 1, n1, off1);
      StageOfBlocks(x, L, r, b, dir, trig, q, n, off, n1, off1);
    }
  }

  /** `evaluateFFT` after `rearrangeForIFFT` is the recursive Cooley–Tukey transform. */
  lemma EvaluatedIsRecursive(x: seq<Complex>, L: nat, dir: Direction, trig: Trig)
    requires |x| == Pow2(L)
    ensures Evaluated(x, L, dir, trig) == RecursiveFFT(x, L, dir, trig)
  {
    assert SubSignal(x, L, 0, Rev(0, 0)) == x;
    ShiftedIsProduct(0, L);
    BlockIsRecursive(x, L, L, 0, dir, trig, 0, 0, 0);
    forall t | 0 <= t < |x|
      ensures Evaluated(x, L, dir, trig)[t] == RecursiveFFT(x, L, dir, trig)[t]
    {
      assert Net(x, L, L, dir, trig)[0 + t] == Entry(Rec(x, L, 0, 0, dir, trig), t);
    }
  }

  /** `performFFT` is the recursive transform with bin 0 cleared. */
  lemma TransformIsRecursive(x: seq<Complex>, L: nat, dir: Direction, trig: Trig)
    requires |x| == Pow2(L)
    ensures Transform(x, L, dir, trig) == RecursiveFFT(x, L, dir, trig)[0 := Zero]
  {
    EvaluatedIsRecursive(x, L, dir, trig);
  }
}
