/** Powers of two, bit reversal, and the 32-bit `unsigned int` bitwise
    operators used by the bit-reversal counter of fft.cpp, all on
    unbounded naturals. */
module Bits {

  /** Bit width of the target's `unsigned int`. */
  const WORD: nat := 32

  function Pow2(k: nat): (r: nat)
    ensures r >= 1
  {
    if k == 0 then 1 else 2 * Pow2(k - 1)
  }

  lemma {:induction false} Pow2Monotone(a: nat, b: nat)
    requires a <= b
    ensures Pow2(a) <= Pow2(b)
    decreases b
  {
    if a < b {
      Pow2Monotone(a, b - 1);
    }
  }

  lemma {:induction false} Pow2Add(a: nat, b: nat)
    ensures Pow2(a + b) == Pow2(a) * Pow2(b)
    decreases a
  {
    if a > 0 {
      Pow2Add(a - 1, b);
    }
  }

  /** A larger power of two is a whole multiple of a smaller one. */
  lemma Pow2Divides(a: nat, b: nat)
    requires a <= b
    ensures Pow2(b) % Pow2(a) == 0
    ensures Pow2(b) / Pow2(a) == Pow2(b - a)
  {
    Pow2Add(b - a, a);
    DivModUnique(Pow2(b), Pow2(b - a), 0, Pow2(a));
  }

  /** Quotient and remainder are determined by x = q·m + r with 0 ≤ r < m. */
  lemma DivModUnique(x: int, q: int, r: int, m: int)
    requires m > 0 && 0 <= r < m && x == q * m + r
    ensures x / m == q && x % m == r
  {
    var q', r' := x / m, x % m;
    assert x == q' * m + r' && 0 <= r' < m;
    assert (q - q') * m == r' - r;
    if q - q' >= 1 {
      MulAtLeast(q - q', m);
      assert false;
    } else if q - q' <= -1 {
      MulAtLeast(q' - q, m);
      assert false;
    }
  }

  lemma DivBounds(a: int, b: int)
    requires a >= 0 && b > 0
    ensures 0 <= a / b <= a
  {
    var q, r := a / b, a % b;
    assert a == b * q + r && 0 <= r < b;
    if q < 0 {
      MulAtLeast(-q, b);
      assert false;
    } else if q > 0 {
      MulAtLeast(b, q);
    }
  }

  lemma MulAtLeast(a: int, d: int)
    requires a >= 1 && d > 0
    ensures a * d >= d
  {
  }

  // ---------------------------------------------------------------------
  // Bits of a natural number

  /** Bit k of x; bit 0 is the least significant. */
  predicate Bit(x: nat, k: nat) {
    if k == 0 then x % 2 == 1 else Bit(x / 2, k - 1)
  }

  lemma {:induction false} BitHigh(x: nat, b: nat, k: nat)
    requires x < Pow2(b) && b <= k
    ensures !Bit(x, k)
    decreases k
  {
    if k > 0 {
      if b == 0 {
        assert x / 2 == 0 < Pow2(0);
        BitHigh(x / 2, 0, k - 1);
      } else {
        BitHigh(x / 2, b - 1, k - 1);
      }
    }
  }

  /** Two numbers below 2^b are equal when their low b bits agree. */
  lemma {:induction false} BitsDetermine(x: nat, y: nat, b: nat)
    requires x < Pow2(b) && y < Pow2(b)
    requires forall k :: 0 <= k < b ==> Bit(x, k) == Bit(y, k)
    ensures x == y
    decreases b
  {
    if b > 0 {
      assert Bit(x, 0) == Bit(y, 0);
      forall k | 0 <= k < b - 1
        ensures Bit(x / 2, k) == Bit(y / 2, k)
      {
        assert Bit(x, k + 1) == Bit(y, k + 1);
      }
      BitsDetermine(x / 2, y / 2, b - 1);
    }
  }

  /** The bits of c·2^m + r for r below 2^m: those of r, then c at position m. */
  lemma {:induction false} BitOfTopPlus(c: bool, m: nat, r: nat, k: nat)
    requires r < Pow2(m)
    ensures Bit((if c then Pow2(m) else 0) + r, k) == if k < m then Bit(r, k) else k == m && c
    decreases m
  {
    var v := (if c then Pow2(m) else 0) + r;
    if m == 0 {
      if k > 0 {
        assert v / 2 == 0;
        BitHigh(0, 0, k - 1);
      }
    } else if k > 0 {
      assert v / 2 == (if c then Pow2(m - 1) else 0) + r / 2;
      BitOfTopPlus(c, m - 1, r / 2, k - 1);
    }
  }

  lemma BitOfPow2(t: nat, k: nat)
    ensures Bit(Pow2(t), k) == (k == t)
  {
    BitOfTopPlus(true, t, 0, k);
    if k < t {
      BitHigh(0, 0, k);
    }
  }

  /** 2^s − 1 has exactly the bits below s. */
  lemma {:induction false} BitOfLowMask(s: nat, k: nat)
    ensures Bit(Pow2(s) - 1, k) == (k < s)
    decreases s
  {
    if s == 0 {
      BitHigh(0, 0, k);
    } else if k > 0 {
      assert (Pow2(s) - 1) / 2 == Pow2(s - 1) - 1;
      BitOfLowMask(s - 1, k - 1);
    }
  }

  // ---------------------------------------------------------------------
  // Bit reversal

  /** The low b bits of x in reverse order. */
  function Rev(x: nat, b: nat): (r: nat)
    ensures r < Pow2(b)
  {
    if b == 0 then 0 else (if x % 2 == 1 then Pow2(b - 1) else 0) + Rev(x / 2, b - 1)
  }

  lemma {:induction false} BitOfRev(x: nat, b: nat, k: nat)
    requires k < b
    ensures Bit(Rev(x, b), k) == Bit(x, b - 1 - k)
    decreases b
  {
    BitOfTopPlus(x % 2 == 1, b - 1, Rev(x / 2, b - 1), k);
    if k < b - 1 {
      BitOfRev(x / 2, b - 1, k);
    }
  }

  /** Reversing the low b bits twice gives the number back. */
  lemma RevInvolution(x: nat, b: nat)
    requires x < Pow2(b)
    ensures Rev(Rev(x, b), b) == x
  {
    forall k | 0 <= k < b
      ensures Bit(Rev(Rev(x, b), b), k) == Bit(x, k)
    {
      BitOfRev(Rev(x, b), b, k);
      BitOfRev(x, b, b - 1 - k);
    }
    BitsDetermine(Rev(Rev(x, b), b), x, b);
  }

  // ---------------------------------------------------------------------
  // Unsigned-int bitwise operators on a word of w bits

  /** `a ^ b` on w-bit words. */
  function Xor(a: nat, b: nat, w: nat): (r: nat)
    ensures r < Pow2(w)
  {
    if w == 0 then 0
    else (if (a % 2 == 1) != (b % 2 == 1) then 1 else 0) + 2 * Xor(a / 2, b / 2, w - 1)
  }

  /** `a & b` on w-bit words. */
  function And(a: nat, b: nat, w: nat): (r: nat)
    ensures r < Pow2(w)
  {
    if w == 0 then 0
    else (if a % 2 == 1 && b % 2 == 1 then 1 else 0) + 2 * And(a / 2, b / 2, w - 1)
  }

  /** `~a` on a w-bit word. */
  function Not(a: nat, w: nat): (r: nat)
    requires a < Pow2(w)
    ensures r < Pow2(w)
  {
    Pow2(w) - 1 - a
  }

  /** An integer that is off by at most one word width, reduced to a w-bit
      unsigned word: C's wrap-around of `0u - 1`. */
  function Unsigned(x: int, w: nat): (r: nat)
    requires 0 <= x + Pow2(w) && x < Pow2(w)
    ensures r < Pow2(w)
    ensures r == x || r == x + Pow2(w)
  {
    if x < 0 then x + Pow2(w) else x
  }

  lemma {:induction false} BitOfXor(a: nat, b: nat, w: nat, k: nat)
    requires k < w
    ensures Bit(Xor(a, b, w), k) == (Bit(a, k) != Bit(b, k))
    decreases w
  {
    var low := if (a % 2 == 1) != (b % 2 == 1) then 1 else 0;
    assert (low + 2 * Xor(a / 2, b / 2, w - 1)) / 2 == Xor(a / 2, b / 2, w - 1);
    if k > 0 {
      BitOfXor(a / 2, b / 2, w - 1, k - 1);
    }
  }

  lemma {:induction false} BitOfAnd(a: nat, b: nat, w: nat, k: nat)
    requires k < w
    ensures Bit(And(a, b, w), k) == (Bit(a, k) && Bit(b, k))
    decreases w
  {
    var low := if a % 2 == 1 && b % 2 == 1 then 1 else 0;
    assert (low + 2 * And(a / 2, b / 2, w - 1)) / 2 == And(a / 2, b / 2, w - 1);
    if k > 0 {
      BitOfAnd(a / 2, b / 2, w - 1, k - 1);
    }
  }

  lemma {:induction false} BitOfNot(a: nat, w: nat, k: nat)
    requires a < Pow2(w) && k < w
    ensures Bit(Not(a, w), k) == !Bit(a, k)
    decreases w
  {
    if k > 0 {
      assert Not(a, w) / 2 == Not(a / 2, w - 1);
      BitOfNot(a / 2, w - 1, k - 1);
    }
  }

  // ---------------------------------------------------------------------
  // Incrementing a number, bit by bit

  /** Number of consecutive one bits at the bottom of x (the position of its lowest zero bit). */
  function TrailingOnes(x: nat): nat {
    if x % 2 == 0 then 0 else 1 + TrailingOnes(x / 2)
  }

  /** Adding one clears the trailing ones, sets the lowest zero bit and keeps the rest. */
  lemma {:induction false} BitsOfSuccessor(x: nat, k: nat)
    ensures k < TrailingOnes(x) ==> Bit(x, k) && !Bit(x + 1, k)
    ensures k == TrailingOnes(x) ==> !Bit(x, k) && Bit(x + 1, k)
    ensures k > TrailingOnes(x) ==> Bit(x + 1, k) == Bit(x, k)
    decreases k
  {
    if k > 0 {
      if x % 2 == 0 {
        assert (x + 1) / 2 == x / 2;
      } else {
        assert (x + 1) / 2 == x / 2 + 1;
        BitsOfSuccessor(x / 2, k - 1);
      }
    }
  }

  /** The lowest zero bit of x lies below any power of two exceeding x + 1. */
  lemma TrailingOnesBound(x: nat, b: nat)
    requires x + 1 < Pow2(b)
    ensures TrailingOnes(x) < b
  {
    BitsOfSuccessor(x, TrailingOnes(x));
    if TrailingOnes(x) >= b {
      BitHigh(x + 1, b, TrailingOnes(x));
    }
  }

  /** `~x & (x + 1)` isolates the lowest zero bit of x. */
  lemma LowestZeroBit(x: nat, w: nat)
    requires x + 1 < Pow2(w)
    ensures TrailingOnes(x) < w
    ensures And(Not(x, w), x + 1, w) == Pow2(TrailingOnes(x))
  {
    var t := TrailingOnes(x);
    TrailingOnesBound(x, w);
    forall k | 0 <= k < w
      ensures Bit(And(Not(x, w), x + 1, w), k) == Bit(Pow2(t), k)
    {
      BitOfAnd(Not(x, w), x + 1, w, k);
      BitOfNot(x, w, k);
      BitsOfSuccessor(x, k);
      BitOfPow2(t, k);
    }
    Pow2Monotone(t + 1, w);
    BitsDetermine(And(Not(x, w), x + 1, w), Pow2(t), w);
  }

  /** An XOR of two numbers below 2^b stays below 2^b. */
  lemma {:induction false} XorFits(a: nat, c: nat, b: nat, w: nat)
    requires a < Pow2(b) && c < Pow2(b)
    ensures Xor(a, c, w) < Pow2(b)
    decreases w
  {
    if w > 0 {
      if b == 0 {
        XorFits(0, 0, 0, w - 1);
      } else {
        XorFits(a / 2, c / 2, b - 1, w - 1);
      }
    }
  }

  /** An AND with a mask below 2^b is below 2^b. */
  lemma {:induction false} AndFits(mask: nat, y: nat, b: nat, w: nat)
    requires mask < Pow2(b)
    ensures And(mask, y, w) < Pow2(b)
    decreases w
  {
    if w > 0 {
      if b == 0 {
        AndFits(0, y / 2, 0, w - 1);
      } else {
        AndFits(mask / 2, y / 2, b - 1, w - 1);
      }
    }
  }
}
