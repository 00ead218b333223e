/** Window weighting (fft.cpp `getWeighingFactor` and `applyWindow`). */
module Window {
  import opened ComplexNumbers
  import opened Bits
  import opened FftTypes

  function Abs(x: real): real {
    if x < 0.0 then -x else x
  }

  /** The cosine of the math library, applied in one place. */
  function Cos(trig: Trig, x: real): real {
    trig.cos(x)
  }

  /** The angle c·π·ratio of one cosine term. */
  function Angle(trig: Trig, c: real, ratio: real): real {
    c * trig.pi * ratio
  }

  /** cos(c·π·ratio), one term of a cosine-sum window. */
  function CosTerm(trig: Trig, c: real, ratio: real): real {
    Cos(trig, Angle(trig, c, ratio))
  }

  /** The weight of sample offset i in a window over n samples. The divisor
      is n − 1, so every profile except the rectangle needs n >= 2. */
  function Weight(kind: WindowKind, i: nat, n: nat, trig: Trig): real
    requires kind == Rectangle || n >= 2
  {
    if kind == Rectangle then 1.0
    else
      var d := (n - 1) as real;
      var x := i as real;
      var ratio := x / d;
      match kind
      case Hamming => 0.54 - 0.46 * CosTerm(trig, 2.0, ratio)
      case Hann => 0.54 * (1.0 - CosTerm(trig, 2.0, ratio))
      case Triangle => TriangleWeight(i, n)
      case Nuttall =>
        0.355768 - 0.487396 * CosTerm(trig, 2.0, ratio) + 0.144232 * CosTerm(trig, 4.0, ratio)
        - 0.012604 * CosTerm(trig, 6.0, ratio)
      case Blackman =>
        0.42323 - 0.49755 * CosTerm(trig, 2.0, ratio) + 0.07922 * CosTerm(trig, 4.0, ratio)
      case BlackmanNuttall =>
        0.3635819 - 0.4891775 * CosTerm(trig, 2.0, ratio) + 0.1365995 * CosTerm(trig, 4.0, ratio)
        - 0.0106411 * CosTerm(trig, 6.0, ratio)
      case BlackmanHarris =>
        0.35875 - 0.48829 * CosTerm(trig, 2.0, ratio) + 0.14128 * CosTerm(trig, 4.0, ratio)
        - 0.01168 * CosTerm(trig, 6.0, ratio)
      case FlatTop =>
        0.2810639 - 0.5208972 * CosTerm(trig, 2.0, ratio) + 0.1980399 * CosTerm(trig, 4.0, ratio)
      case Welch => WelchWeight(i, n)
  }

  /** Bartlett window: 1 − 2·|i − (n−1)/2| / (n−1). */
  function TriangleWeight(i: nat, n: nat): real
    requires n >= 2
  {
    var d := (n - 1) as real;
    1.0 - (2.0 * Abs(i as real - d / 2.0)) / d
  }

  /** Welch window: 1 − ((i − c)/c)² with c = (n−1)/2, in the source's order of operations. */
  function WelchWeight(i: nat, n: nat): real
    requires n >= 2
  {
    var center := (n - 1) as real / 2.0;
    1.0 - SquaredOffset(i as real - center, center)
  }

  /** `(a / c * a) / c`, the Welch window's squared relative offset. */
  function SquaredOffset(a: real, c: real): real
    requires c != 0.0
  {
    (a / c * a) / c
  }

  /** Distance of index k from the nearer end of a buffer of n samples. */
  function Mirror(k: nat, n: nat): (i: nat)
    requires k < n
    ensures i == k || i == n - 1 - k
    ensures i <= k && i <= n - 1 - k
  {
    if k <= n - 1 - k then k else n - 1 - k
  }

  /** One sample multiplied (forward) or divided (inverse) by its weight. */
  function Weigh(x: Complex, w: real, dir: Direction): Complex
    requires dir == Inverse ==> w != 0.0
  {
    match dir
    case Forward => Scale(x, w)
    case Inverse => DivReal(x, w)
  }

  /** Every weight the window loop divides by in the inverse direction is nonzero. */
  ghost predicate NonzeroWeights(kind: WindowKind, n: nat, trig: Trig) {
    forall i: nat :: i < n / 2 ==> Weight(kind, i, n, trig) != 0.0
  }

  /** The windowed buffer: sample k takes the weight of its distance from the
      nearer end; a middle sample of an odd-length buffer is left alone. */
  ghost function Windowed(data: seq<Complex>, kind: WindowKind, dir: Direction, trig: Trig): (out: seq<Complex>)
    requires dir == Inverse ==> NonzeroWeights(kind, |data|, trig)
    ensures |out| == |data|
  {
    var n := |data|;
    seq(n, k requires 0 <= k < n =>
      if Mirror(k, n) < n / 2 then Weigh(data[k], Weight(kind, Mirror(k, n), n, trig), dir) else data[k])
  }

  /** `applyWindow`: the loop over mirror pairs {i, N−1−i} for i in [0, N/2). */
  method ApplyWindow(data: seq<Complex>, log2N: nat, kind: WindowKind, dir: Direction, trig: Trig)
    returns (out: seq<Complex>)
    requires |data| == Pow2(log2N)
    requires dir == Inverse ==> NonzeroWeights(kind, |data|, trig)
    ensures out == Windowed(data, kind, dir, trig)
  {
    var n := |data|;  // N = 2^log2N
    var nd2 := n / 2;
    out := data;
    var i := 0;
    while i < nd2
      invariant i <= nd2 && |out| == n
      invariant forall k :: 0 <= k < n ==>
        out[k] == if Mirror(k, n) < i then Weigh(data[k], Weight(kind, Mirror(k, n), n, trig), dir) else data[k]
    {
      out := WeighPair(out, data, kind, dir, trig, i);
      i := i + 1;
    }
  }

  /** One iteration of the window loop: samples i and N−(i+1) are both
      multiplied (forward) or divided (inverse) by w(i), so the samples that
      carry their weight grow from those nearer an end than i to those
      nearer than i + 1. */
  method WeighPair(buf: seq<Complex>, ghost data: seq<Complex>, kind: WindowKind, dir: Direction, trig: Trig, i: nat)
    returns (out: seq<Complex>)
    requires i < |data| / 2 && |buf| == |data|
    requires dir == Inverse ==> NonzeroWeights(kind, |data|, trig)
    requires forall k :: 0 <= k < |data| ==>
      buf[k] == if Mirror(k, |data|) < i then Weigh(data[k], Weight(kind, Mirror(k, |data|), |data|, trig), dir) else data[k]
    ensures |out| == |data|
    ensures forall k :: 0 <= k < |data| ==>
      out[k] == if Mirror(k, |data|) < i + 1 then Weigh(data[k], Weight(kind, Mirror(k, |data|), |data|, trig), dir) else data[k]
  {
    PairWeighable(data, kind, dir, trig, i);
    var n := |buf|;
    var w := Weight(kind, i, n, trig);
    out := buf[i := Weigh(buf[i], w, dir)];
    out := out[n - (i + 1) := Weigh(out[n - (i + 1)], w, dir)];
  }

  /** Pair i has a weight, and in the inverse direction it is nonzero. */
  lemma PairWeighable(data: seq<Complex>, kind: WindowKind, dir: Direction, trig: Trig, i: nat)
    requires i < |data| / 2
    requires dir == Inverse ==> NonzeroWeights(kind, |data|, trig)
    ensures Weight.requires(kind, i, |data|, trig)
    ensures dir == Inverse ==> Weight(kind, i, |data|, trig) != 0.0
  {
  }

  // ---------------------------------------------------------------------
  // Properties of the weights and of the windowed buffer

  /** The rectangle window leaves the buffer unchanged in both directions. */
  lemma RectangleIsIdentity(data: seq<Complex>, dir: Direction, trig: Trig)
    ensures dir == Inverse ==> NonzeroWeights(Rectangle, |data|, trig)
    ensures Windowed(data, Rectangle, dir, trig) == data
  {
    var out := Windowed(data, Rectangle, dir, trig);
    forall k | 0 <= k < |data|
      ensures out[k] == data[k]
    {
    }
  }

  /** The triangle and Welch weights vanish at the edge, stay within [0, 1]
      and are symmetric about the middle of the buffer. */
  lemma RationalWindowShape(kind: WindowKind, i: nat, n: nat, trig: Trig)
    requires kind == Triangle || kind == Welch
    requires n >= 2 && i <= n - 1
    ensures Weight(kind, 0, n, trig) == 0.0
    ensures 0.0 <= Weight(kind, i, n, trig) <= 1.0
    ensures Weight(kind, i, n, trig) == Weight(kind, n - 1 - i, n, trig)
  {
    if kind == Triangle {
      TriangleShape(i, n);
    } else {
      WelchShape(i, n);
    }
  }

  /** The windows built from cosine terms: every kind but the rectangle and
      the two rational windows. */
  predicate IsCosineSum(kind: WindowKind) {
    !(kind == Rectangle || kind == Triangle || kind == Welch)
  }

  /** cos(−x), named so that the evenness hypothesis fires only on demand. */
  function CosNegated(trig: Trig, x: real): real {
    Cos(trig, -x)
  }

  /** cos(x + 2π), named for the same reason. */
  function CosShifted(trig: Trig, x: real): real {
    Cos(trig, x + 2.0 * trig.pi)
  }

  /** The two facts about cosine the mirror symmetry of a cosine-sum window
      rests on: it is even and 2π-periodic. */
  ghost predicate CosEvenPeriodic(trig: Trig) {
    && (forall x {:trigger CosNegated(trig, x)} :: CosNegated(trig, x) == Cos(trig, x))
    && (forall x {:trigger CosShifted(trig, x)} :: CosShifted(trig, x) == Cos(trig, x))
  }

  /** −y + k·2π, built by adding 2π k times. */
  function Reflected(trig: Trig, y: real, k: nat): real {
    if k == 0 then -y else Reflected(trig, y, k - 1) + 2.0 * trig.pi
  }

  /** An even, 2π-periodic cosine takes the same value at y and at −y + k·2π. */
  lemma {:induction false} CosReflected(trig: Trig, y: real, k: nat)
    requires CosEvenPeriodic(trig)
    ensures Cos(trig, Reflected(trig, y, k)) == Cos(trig, y)
  {
    if k == 0 {
      assert CosNegated(trig, y) == Cos(trig, y);
    } else {
      CosReflected(trig, y, k - 1);
      assert CosShifted(trig, Reflected(trig, y, k - 1)) == Cos(trig, Reflected(trig, y, k - 1));
    }
  }

  lemma MirrorRatio(x: real, d: real)
    requires d > 0.0
    ensures (d - x) / d == 1.0 - x / d
  {
    assert (d - x) / d == d / d - x / d;
  }

  /** The argument of a cosine term at the mirror index, c = 2k. */
  lemma MirrorArgument(trig: Trig, k: nat, r: real)
    requires 1 <= k <= 3
    ensures Angle(trig, (2 * k) as real, 1.0 - r) == Reflected(trig, Angle(trig, (2 * k) as real, r), k)
  {
    var y := Angle(trig, (2 * k) as real, r);
    var p := 2.0 * trig.pi;
    assert Reflected(trig, y, 1) == -y + p;
    if k == 1 {
      assert Angle(trig, 2.0, 1.0 - r) == -y + p;
    } else if k == 2 {
      assert Reflected(trig, y, 2) == -y + 2.0 * p;
      assert Angle(trig, 4.0, 1.0 - r) == -y + 2.0 * p;
    } else {
      assert Reflected(trig, y, 2) == -y + 2.0 * p;
      assert Reflected(trig, y, 3) == -y + 3.0 * p;
      assert Angle(trig, 6.0, 1.0 - r) == -y + 3.0 * p;
    }
  }

  /** One cosine term cos(c·π·i/(n−1)), c = 2k ∈ {2, 4, 6}, takes the same
      value at i and n − 1 − i: the argument becomes c·π minus the old one. */
  lemma CosTermMirror(trig: Trig, k: nat, i: nat, n: nat)
    requires CosEvenPeriodic(trig) && n >= 2 && i <= n - 1 && 1 <= k <= 3
    ensures var c := (2 * k) as real;
      CosTerm(trig, c, (n - 1 - i) as real / (n - 1) as real) == CosTerm(trig, c, i as real / (n - 1) as real)
  {
    var d := (n - 1) as real;
    var x := i as real;
    assert (n - 1 - i) as real == d - x;
    var c := (2 * k) as real;
    var r, r' := x / d, (n - 1 - i) as real / d;
    MirrorRatio(x, d);
    assert r' == 1.0 - r;
    MirrorArgument(trig, k, r);
    CosReflected(trig, Angle(trig, c, r), k);
    assert CosTerm(trig, c, r') == CosTerm(trig, c, 1.0 - r);
  }

  /** Every window is mirror-symmetric: w(i) = w(n − 1 − i). The cosine-sum
      windows need cosine to be even and 2π-periodic; the rectangle and the
      rational windows need nothing. */
  lemma WeightSymmetric(kind: WindowKind, i: nat, n: nat, trig: Trig)
    requires n >= 2 && i <= n - 1
    requires IsCosineSum(kind) ==> CosEvenPeriodic(trig)
    ensures Weight(kind, i, n, trig) == Weight(kind, n - 1 - i, n, trig)
  {
    if kind == Triangle || kind == Welch {
      RationalWindowShape(kind, i, n, trig);
    } else if kind != Rectangle {
      CosTermMirror(trig, 1, i, n);
      CosTermMirror(trig, 2, i, n);
      CosTermMirror(trig, 3, i, n);
    }
  }

  lemma TriangleShape(i: nat, n: nat)
    requires n >= 2 && i <= n - 1
    ensures TriangleWeight(0, n) == 0.0
    ensures 0.0 <= TriangleWeight(i, n) <= 1.0
    ensures TriangleWeight(i, n) == TriangleWeight(n - 1 - i, n)
  {
    var d := (n - 1) as real;
    var a := i as real - d / 2.0;
    assert Abs(0 as real - d / 2.0) == d / 2.0;
    assert 2.0 * (d / 2.0) / d == 1.0;
    assert (n - 1 - i) as real - d / 2.0 == -a;
    assert Abs(-a) == Abs(a);
    DivideWithin(2.0 * Abs(a), d);
  }

  lemma WelchShape(i: nat, n: nat)
    requires n >= 2 && i <= n - 1
    ensures WelchWeight(0, n) == 0.0
    ensures 0.0 <= WelchWeight(i, n) <= 1.0
    ensures WelchWeight(i, n) == WelchWeight(n - 1 - i, n)
  {
    var c := (n - 1) as real / 2.0;
    var a := i as real - c;
    assert 0.0 <= i as real <= 2.0 * c;
    assert -c <= a <= c;
    assert (n - 1 - i) as real - c == -a;
    assert 0 as real - c == -c;
    SquareRatio(a, c);
    SquareRatio(-a, c);
    SquareRatio(-c, c);
  }

  lemma DivideWithin(t: real, d: real)
    requires d > 0.0 && 0.0 <= t <= d
    ensures 0.0 <= t / d <= 1.0
  {
  }

  /** (a/c·a)/c lies in [0, 1] when |a| <= c, is 1 at a = −c, and does not
      depend on the sign of a. */
  lemma SquareRatio(a: real, c: real)
    requires c > 0.0
    ensures -c <= a <= c ==> 0.0 <= SquaredOffset(a, c) <= 1.0
    ensures SquaredOffset(-a, c) == SquaredOffset(a, c)
    ensures a == -c ==> SquaredOffset(a, c) == 1.0
  {
    var u := a / c;
    assert a == u * c;
    assert SquaredOffset(a, c) == u * u by {
      assert (u * a) / c == u * (a / c);
    }
    assert -a / c == -u;
    assert SquaredOffset(-a, c) == (-u) * (-u) by {
      assert ((-u) * (-a)) / c == (-u) * (-a / c);
    }
    if -c <= a <= c {
      assert -1.0 <= u <= 1.0;
      SquareAtMostOne(u);
    }
  }

  lemma SquareAtMostOne(u: real)
    requires -1.0 <= u <= 1.0
    ensures 0.0 <= u * u <= 1.0
  {
    if u >= 0.0 {
      assert u * u <= u * 1.0;
    } else {
      assert u * u <= (-u) * 1.0;
    }
  }

  /** With cos(0) = 1 the Hann weight at the edge is zero, so the inverse
      window would divide by zero there. */
  lemma HannVanishesAtEdge(n: nat, trig: Trig)
    requires n >= 2 && trig.cos(0.0) == 1.0
    ensures Weight(Hann, 0, n, trig) == 0.0
    ensures !NonzeroWeights(Hann, n, trig)
  {
    assert 2.0 * trig.pi * (0.0 / (n - 1) as real) == 0.0;
  }

  /** Windowing forward and then inversely restores every sample when no weight is zero. */
  lemma WindowRoundTrip(data: seq<Complex>, kind: WindowKind, trig: Trig)
    requires NonzeroWeights(kind, |data|, trig)
    ensures Windowed(Windowed(data, kind, Forward, trig), kind, Inverse, trig) == data
  {
    var fwd := Windowed(data, kind, Forward, trig);
    var back := Windowed(fwd, kind, Inverse, trig);
    var n := |data|;
    forall k | 0 <= k < n
      ensures back[k] == data[k]
    {
      if Mirror(k, n) < n / 2 {
        ScaleThenDivide(data[k], Weight(kind, Mirror(k, n), n, trig));
      }
    }
  }

  /** A zero weight erases both samples of its mirror pair in the forward
      direction, so forward windowing then loses them for good. */
  lemma ZeroWeightErases(data: seq<Complex>, kind: WindowKind, i: nat, trig: Trig)
    requires i < |data| / 2 && Weight(kind, i, |data|, trig) == 0.0
    ensures Windowed(data, kind, Forward, trig)[i] == Zero
    ensures Windowed(data, kind, Forward, trig)[|data| - 1 - i] == Zero
  {
  }

  /** For an even-length buffer each sample simply takes the weight of its
      own index, since the window is mirror-symmetric: forward windowing
      multiplies sample k by w(k) and, when no weight is zero, inverse
      windowing divides it by w(k). */
  lemma SymmetricWindowPointwise(data: seq<Complex>, kind: WindowKind, trig: Trig)
    requires IsCosineSum(kind) ==> CosEvenPeriodic(trig)
    requires |data| >= 2 && |data| % 2 == 0
    ensures forall k :: 0 <= k < |data| ==>
      Windowed(data, kind, Forward, trig)[k] == Scale(data[k], Weight(kind, k, |data|, trig))
    ensures NonzeroWeights(kind, |data|, trig) ==> forall k :: 0 <= k < |data| ==>
      Weight(kind, k, |data|, trig) != 0.0
      && Windowed(data, kind, Inverse, trig)[k] == DivReal(data[k], Weight(kind, k, |data|, trig))
  {
    var n := |data|;
    forall k | 0 <= k < n
      ensures Windowed(data, kind, Forward, trig)[k] == Scale(data[k], Weight(kind, k, n, trig))
      ensures NonzeroWeights(kind, n, trig) ==>
        Weight(kind, k, n, trig) != 0.0 && Windowed(data, kind, Inverse, trig)[k] == DivReal(data[k], Weight(kind, k, n, trig))
    {
      WeightSymmetric(kind, k, n, trig);
    }
  }
}
