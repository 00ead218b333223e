/** The enumerations of fft.h and the mathematical constants the kernel
    takes from the C library. */
module FftTypes {

  /** Direction of the transform (`FftDir`). */
  datatype Direction = Forward | Inverse

  /** Sign of the rotation angle: the forward kernel uses −1, the inverse +1. */
  function AngleSign(dir: Direction): (s: real)
    ensures s == 1.0 || s == -1.0
    ensures dir == Forward <==> s < 0.0
  {
    match dir
    case Forward => -1.0
    case Inverse => 1.0
  }

  /** Window profile (`WindowType`), in declaration order. */
  datatype WindowKind =
    | Rectangle
    | Hamming
    | Hann
    | Triangle
    | Nuttall
    | Blackman
    | BlackmanNuttall
    | BlackmanHarris
    | FlatTop
    | Welch

  const WINDOW_KINDS: nat := 10

  /** The integer value C gives each enumerator. */
  function Ordinal(kind: WindowKind): (n: nat)
    ensures n < WINDOW_KINDS
    ensures n == 0 <==> kind == Rectangle
  {
    match kind
    case Rectangle => 0
    case Hamming => 1
    case Hann => 2
    case Triangle => 3
    case Nuttall => 4
    case Blackman => 5
    case BlackmanNuttall => 6
    case BlackmanHarris => 7
    case FlatTop => 8
    case Welch => 9
  }

  /** The enumerator with a given integer value, if there is one. */
  function FromOrdinal(n: int): (r: WindowKind)
    requires 0 <= n < WINDOW_KINDS
    ensures Ordinal(r) == n
  {
    if n == 0 then Rectangle
    else if n == 1 then Hamming
    else if n == 2 then Hann
    else if n == 3 then Triangle
    else if n == 4 then Nuttall
    else if n == 5 then Blackman
    else if n == 6 then BlackmanNuttall
    else if n == 7 then BlackmanHarris
    else if n == 8 then FlatTop
    else Welch
  }

  /** The ten enumerators have the ten distinct values 0..9. */
  lemma OrdinalBijection(a: WindowKind, b: WindowKind)
    ensures FromOrdinal(Ordinal(a)) == a
    ensures Ordinal(a) == Ordinal(b) ==> a == b
  {
  }

  /** π, cos and sin from the C math library, left uninterpreted: the model
      never needs their values, only that each call site uses them. */
  datatype Trig = Trig(pi: real, cos: real -> real, sin: real -> real)
}
