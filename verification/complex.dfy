/** Exact complex arithmetic standing in for the firmware's `float _Complex`
    and `double _Complex` values. Rounding is not modelled: every value is a
    pair of mathematical reals. */
module ComplexNumbers {

  /** A complex sample or bin: real part and imaginary part. */
  datatype Complex = C(re: real, im: real)

  const Zero: Complex := C(0.0, 0.0)
  const One: Complex := C(1.0, 0.0)

  function Add(a: Complex, b: Complex): Complex {
    C(a.re + b.re, a.im + b.im)
  }

  function Sub(a: Complex, b: Complex): Complex {
    C(a.re - b.re, a.im - b.im)
  }

  function Neg(a: Complex): Complex {
    C(-a.re, -a.im)
  }

  function Mul(a: Complex, b: Complex): Complex {
    C(a.re * b.re - a.im * b.im, a.re * b.im + a.im * b.re)
  }

  /** A complex value multiplied by a real factor (`data[i] *= w`). */
  function Scale(a: Complex, s: real): Complex {
    C(a.re * s, a.im * s)
  }

  /** A complex value divided by a nonzero real factor (`data[i] /= w`). */
  function DivReal(a: Complex, s: real): Complex
    requires s != 0.0
  {
    C(a.re / s, a.im / s)
  }

  /** w^k, built the way a running product `wk := wk * w` builds it. */
  function Pow(w: Complex, k: nat): Complex {
    if k == 0 then One else Mul(Pow(w, k - 1), w)
  }

  /** Dividing by a nonzero factor undoes scaling by it. */
  lemma ScaleThenDivide(a: Complex, s: real)
    requires s != 0.0
    ensures DivReal(Scale(a, s), s) == a
  {
    assert (a.re * s) / s == a.re;
    assert (a.im * s) / s == a.im;
  }

  /** One is the multiplicative identity on the left. */
  lemma MulByOne(b: Complex)
    ensures Mul(One, b) == b
  {
  }

  /** The complex conjugate. */
  function Conj(z: Complex): Complex {
    C(z.re, -z.im)
  }

  /** The squared modulus re² + im². */
  function Norm2(z: Complex): real {
    z.re * z.re + z.im * z.im
  }

  /** A value on the unit circle has its conjugate as inverse. */
  lemma ConjInverts(z: Complex)
    requires Norm2(z) == 1.0
    ensures Mul(Conj(z), z) == One
  {
  }

  lemma MulAssoc(a: Complex, b: Complex, c: Complex)
    ensures Mul(Mul(a, b), c) == Mul(a, Mul(b, c))
  {
  }

  lemma MulCommutes(a: Complex, b: Complex)
    ensures Mul(a, b) == Mul(b, a)
  {
  }

  /** Multiplying by p and then by an inverse v of p gives o back. */
  lemma CancelFactor(v: Complex, p: Complex, o: Complex)
    requires Mul(v, p) == One
    ensures Mul(v, Mul(p, o)) == o
  {
    MulAssoc(v, p, o);
    MulByOne(o);
  }

  /** (p·c)·(q·w) = (p·q)·(c·w). */
  lemma MulRegroup(p: Complex, c: Complex, q: Complex, w: Complex)
    ensures Mul(Mul(p, c), Mul(q, w)) == Mul(Mul(p, q), Mul(c, w))
  {
    MulAssoc(p, c, Mul(q, w));
    MulAssoc(c, q, w);
    MulCommutes(c, q);
    MulAssoc(q, c, w);
    MulAssoc(p, q, Mul(c, w));
  }

  /** If p·q = 1 and v·w = 1 then (p·v)·(q·w) = 1. */
  lemma InverseProduct(p: Complex, q: Complex, v: Complex, w: Complex)
    requires Mul(p, q) == One && Mul(v, w) == One
    ensures Mul(Mul(p, v), Mul(q, w)) == One
  {
    MulRegroup(p, v, q, w);
    MulByOne(One);
  }

  /** Powers of inverses are inverses: v·w = 1 gives v^k·w^k = 1. */
  lemma {:induction false} PowInverse(v: Complex, w: Complex, k: nat)
    requires Mul(v, w) == One
    ensures Mul(Pow(v, k), Pow(w, k)) == One
  {
    if k > 0 {
      PowInverse(v, w, k - 1);
      InverseProduct(Pow(v, k - 1), Pow(w, k - 1), v, w);
    }
  }

  lemma MulAddDistributes(p: Complex, x: Complex, y: Complex)
    ensures Mul(p, Add(x, y)) == Add(Mul(p, x), Mul(p, y))
  {
    assert p.re * (x.re + y.re) == p.re * x.re + p.re * y.re;
    assert p.im * (x.im + y.im) == p.im * x.im + p.im * y.im;
    assert p.re * (x.im + y.im) == p.re * x.im + p.re * y.im;
    assert p.im * (x.re + y.re) == p.im * x.re + p.im * y.re;
  }

  lemma MulSubDistributes(p: Complex, x: Complex, y: Complex)
    ensures Mul(p, Sub(x, y)) == Sub(Mul(p, x), Mul(p, y))
  {
    assert p.re * (x.re - y.re) == p.re * x.re - p.re * y.re;
    assert p.im * (x.im - y.im) == p.im * x.im - p.im * y.im;
    assert p.re * (x.im - y.im) == p.re * x.im - p.re * y.im;
    assert p.im * (x.re - y.re) == p.im * x.re - p.im * y.re;
  }

  lemma MulSwapsFactors(p: Complex, c: Complex, x: Complex)
    ensures Mul(p, Mul(c, x)) == Mul(c, Mul(p, x))
  {
  }
}
