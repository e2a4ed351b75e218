/**
 * Ring laws of the polynomial product: constants and the identity, additivity
 * in each factor, scalars and the shift by x pass through a factor, and
 * associativity. These carry the key equation of the Euclidean solver as an
 * identity between polynomials.
 */
module PolyRing {
  import opened Bits
  import F = GaloisField
  import Laws = FieldLaws
  import opened GaloisFieldPoly
  import PL = PolyLaws

  /** The convolution only sees the coefficients of its first factor. */
  lemma {:induction false} ConvByCoefs(f: F.Field, p: seq<nat>, p': seq<nat>, q: seq<nat>, k: nat, n: nat)
    requires F.Valid(f) && InField(f, p) && InField(f, p') && InField(f, q) && n <= k + 1
    requires forall u: nat :: Coef(p, u) == Coef(p', u)
    ensures Conv(f, p, q, k, n) == Conv(f, p', q, k, n)
  {
    if n > 0 {
      ConvByCoefs(f, p, p', q, k, n - 1);
    }
  }

  /** Field multiplication distributes from the left: c * (a + b) == c * a + c * b. */
  lemma MulDistribRight(f: F.Field, c: nat, a: nat, b: nat)
    requires F.Primitive(f) && c < f.size && a < f.size && b < f.size
    ensures F.Valid(f) && Xor(a, b) < f.size
    ensures F.Multiply(f, c, Xor(a, b)) == Xor(F.Multiply(f, c, a), F.Multiply(f, c, b))
  {
    Laws.PrimitiveValid(f);
    Laws.MulDistrib(f, a, b, c);
    Laws.MulComm(f, c, Xor(a, b));
    Laws.MulComm(f, c, a);
    Laws.MulComm(f, c, b);
  }

  /** The convolution is additive in its second factor. */
  lemma {:induction false} ConvAddRight(f: F.Field, q: seq<nat>, a: seq<nat>, b: seq<nat>, s: seq<nat>, k: nat, n: nat)
    requires F.Primitive(f) && InField(f, q) && InField(f, a) && InField(f, b) && InField(f, s)
    requires n <= k + 1
    requires forall u: nat :: Coef(s, u) == Xor(Coef(a, u), Coef(b, u))
    ensures F.Valid(f)
    ensures Conv(f, q, s, k, n) == Xor(Conv(f, q, a, k, n), Conv(f, q, b, k, n))
  {
    Laws.PrimitiveValid(f);
    if n > 0 {
      ConvAddRight(f, q, a, b, s, k, n - 1);
      var u := n - 1;
      var qu, au, bu := Coef(q, u), Coef(a, k - u), Coef(b, k - u);
      MulDistribRight(f, qu, au, bu);
      assert Conv(f, q, s, k, n) == Xor(Conv(f, q, s, k, u), F.Multiply(f, qu, Xor(au, bu)));
      Xor4(Conv(f, q, a, k, u), Conv(f, q, b, k, u), F.Multiply(f, qu, au), F.Multiply(f, qu, bu));
    }
  }

  /** One step of a scaled convolution: (x + p * q) * c == x * c + (p * c) * q. */
  lemma ScaleStep(f: F.Field, x: nat, p: nat, q: nat, c: nat)
    requires F.Primitive(f) && x < f.size && p < f.size && q < f.size && c < f.size
    ensures F.Valid(f) && Xor(x, F.Multiply(f, p, q)) < f.size
    ensures F.Multiply(f, Xor(x, F.Multiply(f, p, q)), c)
         == Xor(F.Multiply(f, x, c), F.Multiply(f, F.Multiply(f, p, c), q))
  {
    Laws.PrimitiveValid(f);
    Laws.MulDistrib(f, x, F.Multiply(f, p, q), c);
    Laws.MulAssoc(f, p, c, q);
    Laws.MulAssoc(f, p, q, c);
    Laws.MulComm(f, c, q);
  }

  /** The inductive step of ConvScale, for one more term. */
  lemma ConvScaleStep(f: F.Field, p: seq<nat>, m: seq<nat>, q: seq<nat>, c: nat, k: nat, n: nat)
    requires F.Primitive(f) && InField(f, p) && InField(f, m) && InField(f, q) && c < f.size
    requires 1 <= n <= k + 1
    requires Coef(m, n - 1) == F.Multiply(f, Coef(p, n - 1), c)
    requires Conv(f, m, q, k, n - 1) == F.Multiply(f, Conv(f, p, q, k, n - 1), c)
    ensures Conv(f, m, q, k, n) == F.Multiply(f, Conv(f, p, q, k, n), c)
  {
    ScaleStep(f, Conv(f, p, q, k, n - 1), Coef(p, n - 1), Coef(q, k - (n - 1)), c);
  }

  /** Scaling the first factor by c scales the convolution by c. */
  lemma {:induction false} ConvScale(f: F.Field, p: seq<nat>, m: seq<nat>, q: seq<nat>, c: nat, k: nat, n: nat)
    requires F.Primitive(f) && InField(f, p) && InField(f, m) && InField(f, q) && c < f.size
    requires n <= k + 1
    requires forall u: nat :: Coef(m, u) == F.Multiply(f, Coef(p, u), c)
    ensures F.Valid(f)
    ensures Conv(f, m, q, k, n) == F.Multiply(f, Conv(f, p, q, k, n), c)
  {
    Laws.PrimitiveValid(f);
    if n > 0 {
      ConvScale(f, p, m, q, c, k, n - 1);
      ConvScaleStep(f, p, m, q, c, k, n);
    }
  }

  /** A constant polynomial [c] multiplies like the scalar c. */
  lemma ConstantProduct(f: F.Field, p: seq<nat>, q: seq<nat>)
    requires F.Primitive(f) && IsPoly(f, p) && IsPoly(f, q) && |p| == 1
    ensures F.Valid(f) && p[0] < f.size
    ensures Multiply(f, p, q) == MultiplyScalar(f, q, p[0])
  {
    Laws.PrimitiveValid(f);
    ScalarCoefs(f, q, p[0]);
    forall k: nat
      ensures Coef(Multiply(f, p, q), k) == Coef(MultiplyScalar(f, q, p[0]), k)
    {
      PL.ConvSplitOne(f, p, q, k);
      Laws.MulComm(f, Coef(q, k), p[0]);
    }
    Extensionality(Multiply(f, p, q), MultiplyScalar(f, q, p[0]));
  }

  /** One is the identity of the product and Zero absorbs it. */
  lemma MultiplyUnits(f: F.Field, q: seq<nat>)
    requires F.Primitive(f) && IsPoly(f, q)
    ensures F.Valid(f) && IsPoly(f, One) && IsPoly(f, Zero)
    ensures Multiply(f, One, q) == q
    ensures Multiply(f, Zero, q) == Zero
  {
    Laws.PrimitiveValid(f);
    ConstantProduct(f, One, q);
  }

  /** The product is additive in its first factor: (a + b) * q == a * q + b * q. */
  lemma MulAddLeft(f: F.Field, a: seq<nat>, b: seq<nat>, q: seq<nat>)
    requires F.Primitive(f) && IsPoly(f, a) && IsPoly(f, b) && IsPoly(f, q)
    ensures F.Valid(f) && IsPoly(f, AddOrSubtract(a, b))
    ensures Multiply(f, AddOrSubtract(a, b), q) == AddOrSubtract(Multiply(f, a, q), Multiply(f, b, q))
  {
    Laws.PrimitiveValid(f);
    var s := AddOrSubtract(a, b);
    AddInField(f, a, b);
    var lhs, rhs := Multiply(f, s, q), AddOrSubtract(Multiply(f, a, q), Multiply(f, b, q));
    forall k: nat
      ensures Coef(lhs, k) == Coef(rhs, k)
    {
      ConvAddLeft(f, a, b, s, q, k, k + 1);
    }
    Extensionality(lhs, rhs);
  }

  /** The product is additive in its second factor: q * (a + b) == q * a + q * b. */
  lemma MulAddRight(f: F.Field, q: seq<nat>, a: seq<nat>, b: seq<nat>)
    requires F.Primitive(f) && IsPoly(f, q) && IsPoly(f, a) && IsPoly(f, b)
    ensures F.Valid(f) && IsPoly(f, AddOrSubtract(a, b))
    ensures Multiply(f, q, AddOrSubtract(a, b)) == AddOrSubtract(Multiply(f, q, a), Multiply(f, q, b))
  {
    Laws.PrimitiveValid(f);
    var s := AddOrSubtract(a, b);
    AddInField(f, a, b);
    var lhs, rhs := Multiply(f, q, s), AddOrSubtract(Multiply(f, q, a), Multiply(f, q, b));
    forall k: nat
      ensures Coef(lhs, k) == Coef(rhs, k)
    {
      ConvAddRight(f, q, a, b, s, k, k + 1);
    }
    Extensionality(lhs, rhs);
  }

  /** A scalar passes through the first factor: (c * p) * q == c * (p * q). */
  lemma ScalarLeft(f: F.Field, p: seq<nat>, q: seq<nat>, c: nat)
    requires F.Primitive(f) && IsPoly(f, p) && IsPoly(f, q) && c < f.size
    ensures F.Valid(f)
    ensures Multiply(f, MultiplyScalar(f, p, c), q) == MultiplyScalar(f, Multiply(f, p, q), c)
  {
    Laws.PrimitiveValid(f);
    var m := MultiplyScalar(f, p, c);
    var lhs, rhs := Multiply(f, m, q), MultiplyScalar(f, Multiply(f, p, q), c);
    ScalarCoefs(f, p, c);
    ScalarCoefs(f, Multiply(f, p, q), c);
    forall k: nat
      ensures Coef(lhs, k) == Coef(rhs, k)
    {
      ConvScale(f, p, m, q, c, k, k + 1);
    }
    Extensionality(lhs, rhs);
  }

  /** Dropping the constant coefficient shifts every coefficient down by one. */
  lemma CoefDropLast(m: seq<nat>, u: nat)
    requires |m| >= 1
    ensures Coef(m[..|m| - 1], u) == Coef(m, u + 1)
  {
  }

  /** Coefficient k of (x * p) * q is coefficient k - 1 of p * q. */
  lemma ShiftLeftCoef(f: F.Field, p: seq<nat>, q: seq<nat>, k: nat)
    requires F.Primitive(f) && IsPoly(f, p) && IsPoly(f, q)
    ensures F.Valid(f) && IsPoly(f, MulMono(f, p, 1, 1))
    ensures ProductAt(f, MulMono(f, p, 1, 1), q, k) == if k == 0 then 0 else ProductAt(f, p, q, k - 1)
  {
    Laws.PrimitiveValid(f);
    var m := MulMono(f, p, 1, 1);
    if k == 0 {
      ShiftConstant(f, m, q);
    } else {
      DropShift(f, p, m);
      ShiftHigher(f, p, m, q, k);
    }
  }

  /** The constant coefficient of (x * p) * q vanishes. */
  lemma ShiftConstant(f: F.Field, m: seq<nat>, q: seq<nat>)
    requires F.Valid(f) && InField(f, m) && InField(f, q) && Coef(m, 0) == 0
    ensures ProductAt(f, m, q, 0) == 0
  {
    assert Conv(f, m, q, 0, 1) == Xor(0, F.Multiply(f, Coef(m, 0), Coef(q, 0)));
    XorZero(0);
  }

  /** Coefficient k >= 1 of m * q, for m == x * p given by its coefficients. */
  lemma ShiftHigher(f: F.Field, p: seq<nat>, m: seq<nat>, q: seq<nat>, k: nat)
    requires F.Valid(f) && InField(f, p) && InField(f, m) && InField(f, q) && |m| >= 1 && k >= 1
    requires Coef(m, 0) == 0 && InField(f, m[..|m| - 1])
    requires forall u: nat :: Coef(m[..|m| - 1], u) == Coef(p, u)
    ensures ProductAt(f, m, q, k) == ProductAt(f, p, q, k - 1)
  {
    PL.ConvSplit(f, m, q, k, k);
    ConvByCoefs(f, m[..|m| - 1], p, q, k - 1, k);
    XorZero(ProductAt(f, p, q, k - 1));
  }

  /** x * p without its constant coefficient has the coefficients of p. */
  lemma DropShift(f: F.Field, p: seq<nat>, m: seq<nat>)
    requires F.Primitive(f) && IsPoly(f, p) && F.Valid(f) && m == MulMono(f, p, 1, 1)
    ensures |m| >= 1 && Coef(m, 0) == 0 && InField(f, m[..|m| - 1])
    ensures forall u: nat :: Coef(m[..|m| - 1], u) == Coef(p, u)
  {
    forall u: nat
      ensures Coef(m[..|m| - 1], u) == Coef(p, u)
    {
      CoefDropLast(m, u);
      Laws.MulOne(f, Coef(p, u));
    }
  }

  /** The shift by x passes through the first factor: (x * p) * q == x * (p * q). */
  lemma ShiftLeft(f: F.Field, p: seq<nat>, q: seq<nat>)
    requires F.Primitive(f) && IsPoly(f, p) && IsPoly(f, q)
    ensures F.Valid(f)
    ensures Multiply(f, MulMono(f, p, 1, 1), q) == MulMono(f, Multiply(f, p, q), 1, 1)
  {
    Laws.PrimitiveValid(f);
    var lhs, rhs := Multiply(f, MulMono(f, p, 1, 1), q), MulMono(f, Multiply(f, p, q), 1, 1);
    forall k: nat
      ensures Coef(lhs, k) == Coef(rhs, k)
    {
      ShiftLeftCoef(f, p, q, k);
      if k > 0 {
        Laws.MulOne(f, ProductAt(f, p, q, k - 1));
      }
    }
    Extensionality(lhs, rhs);
  }

  /** The product is associative: (p * s) * q == p * (s * q). */
  lemma {:induction false} MultiplyAssoc(f: F.Field, p: seq<nat>, s: seq<nat>, q: seq<nat>)
    requires F.Primitive(f) && IsPoly(f, p) && IsPoly(f, s) && IsPoly(f, q)
    ensures F.Valid(f)
    ensures Multiply(f, Multiply(f, p, s), q) == Multiply(f, p, Multiply(f, s, q))
    decreases |p|
  {
    Laws.PrimitiveValid(f);
    var sq := Multiply(f, s, q);
    if |p| == 1 {
      ConstantProduct(f, p, s);
      ConstantProduct(f, p, sq);
      ScalarLeft(f, s, q, p[0]);
    } else {
      var p' := p[..|p| - 1];
      var c0 := Coef(p, 0);
      PL.ProductSplit(f, p, s);
      PL.ProductSplit(f, p, sq);
      var ps' := Multiply(f, p', s);
      MulAddLeft(f, MulMono(f, ps', 1, 1), MultiplyScalar(f, s, c0), q);
      ShiftLeft(f, ps', q);
      ScalarLeft(f, s, q, c0);
      MultiplyAssoc(f, p', s, q);
    }
  }
}
