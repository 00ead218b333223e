/** The iterative radix-2 butterfly network (fft.cpp `evaluateFFT`). */
module Butterfly {
  import opened ComplexNumbers
  import opened Bits
  import opened FftTypes

  // ---------------------------------------------------------------------
  // Twiddle roots

  /** Rotation angle of stage r, whose blocks hold m = 2^r entries: ∓2π/m. */
  function StageAngle(pi: real, dir: Direction, r: nat): real {
    var theta2pi := (AngleSign(dir) * pi) * 2.0;
    theta2pi / (Pow2(r) as real)
  }

  /** The stage root Wm = cos θ + i·sin θ. */
  function StageRoot(trig: Trig, dir: Direction, r: nat): Complex {
    var theta := StageAngle(trig.pi, dir, r);
    C(trig.cos(theta), trig.sin(theta))
  }

  /** The two directions use opposite angles and nothing else differs. */
  lemma DirectionFlipsAngle(trig: Trig, r: nat)
    ensures StageAngle(trig.pi, Inverse, r) == -StageAngle(trig.pi, Forward, r)
    ensures StageRoot(trig, Forward, r) == C(trig.cos(-StageAngle(trig.pi, Inverse, r)), trig.sin(-StageAngle(trig.pi, Inverse, r)))
  {
  }

  // ---------------------------------------------------------------------
  // Index arithmetic of one stage

  /** The block holding index x lies wholly inside a buffer whose length is a multiple of m. */
  lemma BlockFits(x: nat, m: nat, n: nat)
    requires m > 0 && n % m == 0 && x < n
    ensures x % m <= x
    ensures x - x % m + m <= n
  {
    var q, p := x / m, n / m;
    assert x == q * m + x % m;
    assert n == p * m;
    assert q * m < p * m;
    if q >= p {
      MulMonotone(p, q, m);
      assert false;
    }
    MulMonotone(q + 1, p, m);
    if q < 0 {
      MulAtLeast(-q, m);
      assert false;
    }
  }

  lemma MulMonotone(a: int, b: int, m: int)
    requires a <= b && m > 0
    ensures a * m <= b * m
  {
    if a < b {
      MulAtLeast(b - a, m);
    }
  }

  /** Index of the even (upper) input of butterfly k in block q. */
  function EvenIndex(q: nat, k: nat, h: nat): nat {
    q * (2 * h) + k
  }

  /** Index of the odd (lower) input, half a block further on. */
  function OddIndex(q: nat, k: nat, h: nat): nat {
    EvenIndex(q, k, h) + h
  }

  /** The block and offset of the butterfly that reads and writes index idx. */
  function ButterflyOf(idx: nat, h: nat): (qk: (nat, nat))
    requires h >= 1
  {
    var k := idx % (2 * h);
    (idx / (2 * h), if k < h then k else k - h)
  }

  /** Within one stage the pairs (n + k, n + k + h) partition [0, N): every
      index is the even or the odd input of exactly the butterfly ButterflyOf
      names, both of whose inputs lie in range, and every butterfly is named
      by both of its inputs. */
  lemma StagePairsPartition(n: nat, h: nat, idx: nat, q: nat, k: nat)
    requires h >= 1 && n % (2 * h) == 0 && idx < n
    ensures var (q0, k0) := ButterflyOf(idx, h);
      && k0 < h
      && EvenIndex(q0, k0, h) < OddIndex(q0, k0, h) < n
      && (idx == EvenIndex(q0, k0, h) || idx == OddIndex(q0, k0, h))
    ensures k < h ==> ButterflyOf(EvenIndex(q, k, h), h) == (q, k) && ButterflyOf(OddIndex(q, k, h), h) == (q, k)
  {
    var m := 2 * h;
    BlockFits(idx, m, n);
    DivModUnique(idx, idx / m, idx % m, m);
    if k < h {
      DivModUnique(EvenIndex(q, k, h), q, k, m);
      DivModUnique(OddIndex(q, k, h), q, k + h, m);
    }
  }

  // ---------------------------------------------------------------------
  // One stage

  /** What a stage with half-block h and root w leaves at index idx: the
      even input e of butterfly k becomes e + w^k·o, the odd input o becomes
      e − w^k·o. */
  function StageEntry(a: seq<Complex>, h: nat, w: Complex, idx: nat): Complex
    requires h >= 1 && |a| % (2 * h) == 0 && idx < |a|
  {
    var k := idx % (2 * h);
    BlockFits(idx, 2 * h, |a|);
    if k < h then Add(a[idx], Mul(Pow(w, k), a[idx + h]))
    else Sub(a[idx - h], Mul(Pow(w, k - h), a[idx]))
  }

  /** The buffer after one stage. */
  function StageSpec(a: seq<Complex>, h: nat, w: Complex): (out: seq<Complex>)
    requires h >= 1 && |a| % (2 * h) == 0
    ensures |out| == |a|
  {
    seq(|a|, idx requires 0 <= idx < |a| => StageEntry(a, h, w, idx))
  }

  /** The entries a stage leaves at the two inputs of butterfly k in block q. */
  lemma EntriesOfButterfly(a: seq<Complex>, h: nat, w: Complex, q: nat, k: nat)
    requires h >= 1 && |a| % (2 * h) == 0 && k < h && EvenIndex(q, k, h) < |a|
    ensures OddIndex(q, k, h) < |a|
    ensures StageEntry(a, h, w, EvenIndex(q, k, h)) == Add(a[EvenIndex(q, k, h)], Mul(Pow(w, k), a[OddIndex(q, k, h)]))
    ensures StageEntry(a, h, w, OddIndex(q, k, h)) == Sub(a[EvenIndex(q, k, h)], Mul(Pow(w, k), a[OddIndex(q, k, h)]))
  {
    var e := EvenIndex(q, k, h);
    OffsetOf(e, q, k, h);
    EntriesAt(a, h, w, e, k);
  }

  lemma EntriesAt(a: seq<Complex>, h: nat, w: Complex, e: nat, k: nat)
    requires h >= 1 && |a| % (2 * h) == 0 && k < h && e < |a| && e % (2 * h) == k
    ensures e + h < |a|
    ensures StageEntry(a, h, w, e) == Add(a[e], Mul(Pow(w, k), a[e + h]))
    ensures StageEntry(a, h, w, e + h) == Sub(a[e], Mul(Pow(w, k), a[e + h]))
  {
    BlockFits(e, 2 * h, |a|);
    EvenEntry(a, h, w, e, k);
    SameBlockOffset(e, k, h);
    OddEntry(a, h, w, e + h, k + h);
  }

  lemma SameBlockOffset(e: nat, k: nat, h: nat)
    requires h >= 1 && k < h && e % (2 * h) == k
    ensures (e + h) % (2 * h) == k + h
  {
    DivModUnique(e + h, e / (2 * h), k + h, 2 * h);
  }

  lemma OffsetOf(x: nat, q: nat, r: nat, h: nat)
    requires h >= 1 && r < 2 * h && x == q * (2 * h) + r
    ensures x % (2 * h) == r
  {
    DivModUnique(x, q, r, 2 * h);
  }

  lemma EvenEntry(a: seq<Complex>, h: nat, w: Complex, idx: nat, k: nat)
    requires h >= 1 && |a| % (2 * h) == 0 && idx + h < |a|
    requires k < h && idx % (2 * h) == k
    ensures StageEntry(a, h, w, idx) == Add(a[idx], Mul(Pow(w, k), a[idx + h]))
  {
  }

  lemma OddEntry(a: seq<Complex>, h: nat, w: Complex, idx: nat, k: nat)
    requires h >= 1 && |a| % (2 * h) == 0 && h <= idx < |a|
    requires h <= k < 2 * h && idx % (2 * h) == k
    ensures StageEntry(a, h, w, idx) == Sub(a[idx - h], Mul(Pow(w, k - h), a[idx]))
  {
  }

  /** A butterfly loses nothing: half the sum of its outputs is the even
      input, half the difference is the twiddled odd input. */
  lemma ButterflyInvertible(e: Complex, t: Complex)
    ensures Scale(Add(Add(e, t), Sub(e, t)), 0.5) == e
    ensures Scale(Sub(Add(e, t), Sub(e, t)), 0.5) == t
  {
  }

  /** What undoing a stage puts at index idx, given an inverse v of the
      stage root: the even input of butterfly k comes back as half the sum of
      the butterfly's outputs, the odd input as v^k times half their
      difference. */
  function InverseStageEntry(b: seq<Complex>, h: nat, v: Complex, idx: nat): Complex
    requires h >= 1 && |b| % (2 * h) == 0 && idx < |b|
  {
    var k := idx % (2 * h);
    BlockFits(idx, 2 * h, |b|);
    if k < h then Scale(Add(b[idx], b[idx + h]), 0.5)
    else Mul(Pow(v, k - h), Scale(Sub(b[idx - h], b[idx]), 0.5))
  }

  function InverseStage(b: seq<Complex>, h: nat, v: Complex): (out: seq<Complex>)
    requires h >= 1 && |b| % (2 * h) == 0
    ensures |out| == |b|
  {
    seq(|b|, idx requires 0 <= idx < |b| => InverseStageEntry(b, h, v, idx))
  }

  lemma InverseEntry(a: seq<Complex>, h: nat, w: Complex, v: Complex, idx: nat)
    requires h >= 1 && |a| % (2 * h) == 0 && idx < |a| && Mul(v, w) == One
    ensures InverseStageEntry(StageSpec(a, h, w), h, v, idx) == a[idx]
  {
    var m := 2 * h;
    var k := idx % m;
    BlockFits(idx, m, |a|);
    if k < h {
      EntriesAt(a, h, w, idx, k);
      ButterflyInvertible(a[idx], Mul(Pow(w, k), a[idx + h]));
    } else {
      var e := idx - h;
      DivModUnique(e, idx / m, k - h, m);
      EntriesAt(a, h, w, e, k - h);
      ButterflyInvertible(a[e], Mul(Pow(w, k - h), a[idx]));
      PowInverse(v, w, k - h);
      CancelFactor(Pow(v, k - h), Pow(w, k - h), a[idx]);
    }
  }

  /** A stage loses nothing when its root w has an inverse v: undoing it
      with v gives the buffer back. */
  lemma StageInvertible(a: seq<Complex>, h: nat, w: Complex, v: Complex)
    requires h >= 1 && |a| % (2 * h) == 0 && Mul(v, w) == One
    ensures InverseStage(StageSpec(a, h, w), h, v) == a
  {
    forall idx | 0 <= idx < |a|
      ensures InverseStage(StageSpec(a, h, w), h, v)[idx] == a[idx]
    {
      InverseEntry(a, h, w, v, idx);
    }
  }

  /** Lines 76-87 for one stage: blocks n = 0, m, 2m, … of m = 2h entries. */
  method EvaluateStage(a: seq<Complex>, h: nat, w: Complex) returns (out: seq<Complex>)
    requires h >= 1 && |a| % (2 * h) == 0
    ensures |out| == |a|
    ensures forall idx :: 0 <= idx < |a| ==> out[idx] == StageEntry(a, h, w, idx)
    ensures out == StageSpec(a, h, w)
  {
    var N := |a|;
    var m := 2 * h;
    out := a;
    var n := 0;
    ghost var q := 0;
    while n < N
      invariant n == q * m && n <= N
      invariant |out| == N
      invariant forall idx :: 0 <= idx < N ==> out[idx] == if idx < n then StageEntry(a, h, w, idx) else a[idx]
    {
      DivModUnique(n, q, 0, m);
      BlockFits(n, m, N);
      out := EvaluateBlock(out, a, h, w, n, q);
      n := n + m;
      q := q + 1;
    }
  }

  /** Lines 79-86: the h butterflies of the block starting at n, the running
      twiddle wk = w^k restarting at 1 for each block. */
  method EvaluateBlock(cur: seq<Complex>, ghost a: seq<Complex>, h: nat, w: Complex, n: nat, ghost q: nat)
    returns (out: seq<Complex>)
    requires h >= 1 && |a| % (2 * h) == 0 && |cur| == |a|
    requires n == q * (2 * h) && n + 2 * h <= |a|
    requires forall idx :: 0 <= idx < |a| ==> cur[idx] == if idx < n then StageEntry(a, h, w, idx) else a[idx]
    ensures |out| == |a|
    ensures forall idx :: 0 <= idx < |a| ==> out[idx] == if idx < n + 2 * h then StageEntry(a, h, w, idx) else a[idx]
  {
    out := cur;
    var wk := One;
    var k := 0;
    while k < h
      invariant k <= h && |out| == |a|
      invariant wk == Pow(w, k)
      invariant forall idx :: 0 <= idx < |a| ==>
        out[idx] == if idx < n || n <= idx < n + k || n + h <= idx < n + h + k then StageEntry(a, h, w, idx) else a[idx]
    {
      var ie := n + k;
      var io := ie + h;
      assert ie == EvenIndex(q, k, h);
      EntriesOfButterfly(a, h, w, q, k);
      var t := Mul(wk, out[io]);
      out := out[io := Sub(out[ie], t)];
      out := out[ie := Add(out[ie], t)];
      wk := Mul(wk, w);
      k := k + 1;
    }
  }

  // ---------------------------------------------------------------------
  // All stages

  /** The buffer after stages 1..r, stage s using blocks of 2^s entries and root StageRoot(s). */
  function Stages(a: seq<Complex>, log2N: nat, r: nat, dir: Direction, trig: Trig): (out: seq<Complex>)
    requires |a| == Pow2(log2N) && r <= log2N
    ensures |out| == |a|
  {
    if r == 0 then a
    else
      Pow2Divides(r, log2N);
      StageSpec(Stages(a, log2N, r - 1, dir, trig), Pow2(r - 1), StageRoot(trig, dir, r))
  }

  /** `evaluateFFT`: stages r = 1 … log2N in turn. */
  method EvaluateFFT(data: seq<Complex>, log2N: nat, dir: Direction, trig: Trig) returns (out: seq<Complex>)
    requires log2N < WORD && |data| == Pow2(log2N)
    ensures out == Stages(data, log2N, log2N, dir, trig)
  {
    out := data;
    var r := 1;
    while r <= log2N
      invariant 1 <= r <= log2N + 1
      invariant out == Stages(data, log2N, r - 1, dir, trig)
    {
      var m := Pow2(r);
      var md2 := m / 2;
      var wm := StageRoot(trig, dir, r);
      assert md2 == Pow2(r - 1);
      Pow2Divides(r, log2N);
      out := EvaluateStage(out, md2, wm);
      r := r + 1;
    }
  }

  /** Every stage root lies on the unit circle (cos² + sin² = 1), so that
      its conjugate is its inverse. */
  ghost predicate UnitRoots(trig: Trig, dir: Direction, log2N: nat) {
    forall s :: 1 <= s <= log2N ==> Norm2(StageRoot(trig, dir, s)) == 1.0
  }

  /** Stages r, r − 1, …, 1 undone in turn, each with the conjugate of its root. */
  function UnStages(b: seq<Complex>, log2N: nat, r: nat, dir: Direction, trig: Trig): (out: seq<Complex>)
    requires |b| == Pow2(log2N) && r <= log2N
    ensures |out| == |b|
    decreases r
  {
    if r == 0 then b
    else
      Pow2Divides(r, log2N);
      UnStages(InverseStage(b, Pow2(r - 1), Conj(StageRoot(trig, dir, r))), log2N, r - 1, dir, trig)
  }

  /** With roots on the unit circle the stages lose nothing: undoing them
      in reverse order gives the input back. */
  lemma {:induction false} StagesInvertible(a: seq<Complex>, log2N: nat, r: nat, dir: Direction, trig: Trig)
    requires |a| == Pow2(log2N) && r <= log2N && UnitRoots(trig, dir, r)
    ensures UnStages(Stages(a, log2N, r, dir, trig), log2N, r, dir, trig) == a
  {
    if r > 0 {
      var w := StageRoot(trig, dir, r);
      var before := Stages(a, log2N, r - 1, dir, trig);
      Pow2Divides(r, log2N);
      ConjInverts(w);
      StageInvertible(before, Pow2(r - 1), w, Conj(w));
      StagesInvertible(a, log2N, r - 1, dir, trig);
    }
  }
}
