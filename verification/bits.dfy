/** Bitwise operations on non-negative integers, defined bit by bit. */
module Bits {

  function Pow2(n: nat): (r: nat)
    ensures r >= 1
  {
    if n == 0 then 1 else 2 * Pow2(n - 1)
  }

  /** Number of halvings that bring x down to 1. */
  function Log2(x: nat): nat
  {
    if x <= 1 then 0 else 1 + Log2(x / 2)
  }

  predicate IsPow2(x: nat)
  {
    x >= 1 && Pow2(Log2(x)) == x
  }

  /** a ^ b */
  function Xor(a: nat, b: nat): nat
    decreases a + b
  {
    if a == 0 then b
    else if b == 0 then a
    else 2 * Xor(a / 2, b / 2) + (if a % 2 == b % 2 then 0 else 1)
  }

  /** a & b */
  function And(a: nat, b: nat): nat
    decreases a + b
  {
    if a == 0 || b == 0 then 0
    else 2 * And(a / 2, b / 2) + (if a % 2 == 1 && b % 2 == 1 then 1 else 0)
  }

  /** a | b */
  function Or(a: nat, b: nat): nat
    decreases a + b
  {
    if a == 0 then b
    else if b == 0 then a
    else 2 * Or(a / 2, b / 2) + (if a % 2 == 1 || b % 2 == 1 then 1 else 0)
  }

  /** a & ~1: a with its lowest bit cleared. */
  function ClearLowBit(a: nat): nat
  {
    2 * (a / 2)
  }

  /** The defining recursion of Xor holds for every pair, zeros included. */
  lemma XorUnfold(a: nat, b: nat)
    ensures Xor(a, b) == 2 * Xor(a / 2, b / 2) + (if a % 2 == b % 2 then 0 else 1)
  {
    if a == 0 {
      assert Xor(a / 2, b / 2) == b / 2;
    } else if b == 0 {
      assert Xor(a / 2, b / 2) == a / 2;
    }
  }

  lemma XorHalves(a: nat, b: nat)
    ensures Xor(a, b) / 2 == Xor(a / 2, b / 2)
    ensures Xor(a, b) % 2 == (if a % 2 == b % 2 then 0 else 1)
  {
    XorUnfold(a, b);
  }

  lemma XorZero(a: nat)
    ensures Xor(a, 0) == a && Xor(0, a) == a
  {
  }

  lemma {:induction false} XorSelf(a: nat)
    ensures Xor(a, a) == 0
    decreases a
  {
    if a != 0 {
      XorSelf(a / 2);
    }
  }

  lemma {:induction false} XorComm(a: nat, b: nat)
    ensures Xor(a, b) == Xor(b, a)
    decreases a + b
  {
    if a != 0 && b != 0 {
      XorComm(a / 2, b / 2);
    }
  }

  lemma {:induction false} XorAssoc(a: nat, b: nat, c: nat)
    ensures Xor(Xor(a, b), c) == Xor(a, Xor(b, c))
    decreases a + b + c
  {
    if a == 0 || b == 0 || c == 0 {
      XorZero(a); XorZero(b); XorZero(c);
    } else {
      XorAssoc(a / 2, b / 2, c / 2);
      XorHalves(a, b);
      XorHalves(b, c);
      XorUnfold(Xor(a, b), c);
      XorUnfold(a, Xor(b, c));
    }
  }

  /** Regrouping of four terms: (w ^ x) ^ (y ^ z) == (w ^ y) ^ (x ^ z). */
  lemma Xor4(w: nat, x: nat, y: nat, z: nat)
    ensures Xor(Xor(w, x), Xor(y, z)) == Xor(Xor(w, y), Xor(x, z))
  {
    calc {
      Xor(Xor(w, x), Xor(y, z));
      { XorAssoc(w, x, Xor(y, z)); }
      Xor(w, Xor(x, Xor(y, z)));
      { XorAssoc(x, y, z); XorComm(x, y); XorAssoc(y, x, z); }
      Xor(w, Xor(y, Xor(x, z)));
      { XorAssoc(w, y, Xor(x, z)); }
      Xor(Xor(w, y), Xor(x, z));
    }
  }

  /** Adding the same term twice cancels it: (a ^ b) ^ b == a. */
  lemma XorCancel(a: nat, b: nat)
    ensures Xor(Xor(a, b), b) == a
  {
    XorAssoc(a, b, b);
    XorSelf(b);
  }

  lemma XorDouble(a: nat, b: nat)
    ensures Xor(2 * a, 2 * b) == 2 * Xor(a, b)
  {
    XorUnfold(2 * a, 2 * b);
  }

  /** XOR of two n-bit values is an n-bit value. */
  lemma {:induction false} XorBound(a: nat, b: nat, n: nat)
    requires a < Pow2(n) && b < Pow2(n)
    ensures Xor(a, b) < Pow2(n)
  {
    if n == 0 {
      assert a == 0 && b == 0;
    } else {
      XorUnfold(a, b);
      XorBound(a / 2, b / 2, n - 1);
    }
  }

  /** a >> n */
  function Shr(a: nat, n: nat): nat
  {
    if n == 0 then a else Shr(a / 2, n - 1)
  }

  /** The low n bits of a, that is a % 2^n. */
  function Low(a: nat, n: nat): nat
  {
    if n == 0 then 0 else 2 * Low(a / 2, n - 1) + a % 2
  }

  lemma {:induction false} XorShr(a: nat, b: nat, n: nat)
    ensures Shr(Xor(a, b), n) == Xor(Shr(a, n), Shr(b, n))
  {
    if n > 0 {
      XorHalves(a, b);
      XorShr(a / 2, b / 2, n - 1);
    }
  }

  lemma {:induction false} XorLow(a: nat, b: nat, n: nat)
    ensures Low(Xor(a, b), n) == Xor(Low(a, n), Low(b, n))
  {
    if n > 0 {
      var x, la, lb := Xor(a, b), Low(a / 2, n - 1), Low(b / 2, n - 1);
      var bit := if a % 2 == b % 2 then 0 else 1;
      XorHalves(a, b);
      XorLow(a / 2, b / 2, n - 1);
      assert Low(x, n) == 2 * Xor(la, lb) + bit;
      XorOfHalves(la, lb, a % 2, b % 2, Low(a, n), Low(b, n), Low(x, n));
    }
  }

  /** Xor(A, B) == X, for A and B given by their high parts and low bits. */
  lemma XorOfHalves(x: nat, y: nat, p: nat, q: nat, A: nat, B: nat, X: nat)
    requires p <= 1 && q <= 1
    requires A == 2 * x + p && B == 2 * y + q
    requires X == 2 * Xor(x, y) + (if p == q then 0 else 1)
    ensures Xor(A, B) == X
  {
    XorBits(x, y, p, q);
  }

  /** XOR of two values given as high part and low bit. */
  lemma XorBits(x: nat, y: nat, p: nat, q: nat)
    requires p <= 1 && q <= 1
    ensures Xor(2 * x + p, 2 * y + q) == 2 * Xor(x, y) + (if p == q then 0 else 1)
  {
    HalveTwice(x, p);
    HalveTwice(y, q);
    XorUnfold(2 * x + p, 2 * y + q);
  }

  lemma HalveTwice(h: nat, bit: nat)
    requires bit <= 1
    ensures (2 * h + bit) / 2 == h && (2 * h + bit) % 2 == bit
  {
  }

  /** Masking with 2^n - 1 keeps the low n bits. */
  lemma {:induction false} AndLowMask(y: nat, n: nat)
    ensures And(y, Pow2(n) - 1) == Low(y, n)
  {
    if n > 0 && y > 0 {
      AndLowMask(y / 2, n - 1);
    } else if n > 0 {
      LowZero(n);
    }
  }

  lemma {:induction false} LowZero(n: nat)
    ensures Low(0, n) == 0
  {
    if n > 0 {
      LowZero(n - 1);
    }
  }

  /** A value below 2^n is its own low n bits. */
  lemma {:induction false} LowSmall(x: nat, n: nat)
    requires x < Pow2(n)
    ensures Low(x, n) == x
  {
    if n > 0 {
      LowSmall(x / 2, n - 1);
    }
  }

  lemma LowDouble(x: nat, n: nat)
    requires n > 0
    ensures Low(2 * x, n) == 2 * Low(x, n - 1)
  {
    HalveTwice(x, 0);
  }

  /** A value below 2^n splits into its top bit and its low n-1 bits. */
  lemma {:induction false} SplitTop(x: nat, n: nat)
    requires n > 0 && x < Pow2(n)
    ensures Shr(x, n - 1) <= 1
    ensures x == (if Shr(x, n - 1) == 1 then Pow2(n - 1) else 0) + Low(x, n - 1)
  {
    if n > 1 {
      SplitTop(x / 2, n - 1);
    }
  }

  /** a & b never exceeds b. */
  lemma {:induction false} AndBound(a: nat, b: nat)
    ensures And(a, b) <= b
    decreases a + b
  {
    if a != 0 && b != 0 {
      AndBound(a / 2, b / 2);
    }
  }

  /** Equal XOR images cancel: a ^ c == 0 only when a == c. */
  lemma XorZeroEq(a: nat, c: nat)
    requires Xor(a, c) == 0
    ensures a == c
  {
    XorCancel(a, c);
  }

  lemma {:induction false} LowBound(a: nat, n: nat)
    ensures Low(a, n) < Pow2(n)
  {
    if n > 0 {
      LowBound(a / 2, n - 1);
    }
  }

  /** The last two of three XOR terms may be swapped. */
  lemma XorSwap(a: nat, b: nat, c: nat)
    ensures Xor(Xor(a, b), c) == Xor(Xor(a, c), b)
  {
    XorAssoc(a, b, c);
    XorComm(b, c);
    XorAssoc(a, c, b);
  }
}
