/**
 * Laws of the polynomial operations: the ring laws of addOrSubtract, the degree
 * of products and monomial multiples, and evaluation as a ring homomorphism.
 */
module PolyLaws {
  import opened Bits
  import F = GaloisField
  import Laws = FieldLaws
  import opened GaloisFieldPoly

  /** addOrSubtract is commutative. */
  lemma AddComm(p: seq<nat>, q: seq<nat>)
    requires Normalized(p) && Normalized(q)
    ensures AddOrSubtract(p, q) == AddOrSubtract(q, p)
  {
    var l, r := AddOrSubtract(p, q), AddOrSubtract(q, p);
    forall i: nat
      ensures Coef(l, i) == Coef(r, i)
    {
      XorComm(Coef(p, i), Coef(q, i));
    }
    Extensionality(l, r);
  }

  /** Zero is the identity of addOrSubtract. */
  lemma AddZero(p: seq<nat>)
    requires Normalized(p)
    ensures AddOrSubtract(p, Zero) == p && AddOrSubtract(Zero, p) == p
  {
    var l := AddOrSubtract(p, Zero);
    forall i: nat
      ensures Coef(l, i) == Coef(p, i)
    {
      XorZero(Coef(p, i));
    }
    Extensionality(l, p);
    AddComm(p, Zero);
  }

  /** Every polynomial is its own additive inverse: p + p == Zero. */
  lemma AddSelf(p: seq<nat>)
    requires Normalized(p)
    ensures AddOrSubtract(p, p) == Zero
  {
    var l := AddOrSubtract(p, p);
    forall i: nat
      ensures Coef(l, i) == Coef(Zero, i)
    {
      XorSelf(Coef(p, i));
    }
    Extensionality(l, Zero);
  }

  /** addOrSubtract is associative. */
  lemma AddAssoc(p: seq<nat>, q: seq<nat>, r: seq<nat>)
    requires Normalized(p) && Normalized(q) && Normalized(r)
    ensures AddOrSubtract(AddOrSubtract(p, q), r) == AddOrSubtract(p, AddOrSubtract(q, r))
  {
    forall i: nat
      ensures Coef(AddOrSubtract(AddOrSubtract(p, q), r), i) == Coef(AddOrSubtract(p, AddOrSubtract(q, r)), i)
    {
      XorAssoc(Coef(p, i), Coef(q, i), Coef(r, i));
    }
    Extensionality(AddOrSubtract(AddOrSubtract(p, q), r), AddOrSubtract(p, AddOrSubtract(q, r)));
  }

  /** The top coefficient of a product of non-zero polynomials is the product of their leading coefficients. */
  lemma {:induction false} ConvTop(f: F.Field, p: seq<nat>, q: seq<nat>, n: nat)
    requires F.Valid(f) && IsPoly(f, p) && IsPoly(f, q)
    requires n <= Degree(p) + Degree(q) + 1
    ensures Conv(f, p, q, Degree(p) + Degree(q), n)
         == if n > Degree(p) then F.Multiply(f, Lead(p), Lead(q)) else 0
  {
    CoefLead(p);
    CoefLead(q);
    if n > 0 {
      ConvTop(f, p, q, n - 1);
      var k := Degree(p) + Degree(q);
      XorZero(Conv(f, p, q, k, n - 1));
      if n - 1 == Degree(p) {
        XorZero(F.Multiply(f, Lead(p), Lead(q)));
      }
    }
  }

  /** multiply: Zero if either factor is Zero, otherwise degrees add (in a primitive field). */
  lemma MultiplyDegree(f: F.Field, p: seq<nat>, q: seq<nat>)
    requires F.Primitive(f) && IsPoly(f, p) && IsPoly(f, q)
    ensures F.Valid(f)
    ensures IsZero(p) || IsZero(q) ==> Multiply(f, p, q) == Zero
    ensures !IsZero(p) && !IsZero(q) ==>
      !IsZero(Multiply(f, p, q)) && Degree(Multiply(f, p, q)) == Degree(p) + Degree(q)
      && Lead(Multiply(f, p, q)) == F.Multiply(f, Lead(p), Lead(q))
  {
    Laws.PrimitiveValid(f);
    if !IsZero(p) && !IsZero(q) {
      CoefLead(p);
      CoefLead(q);
      Laws.MulNonZero(f, Lead(p), Lead(q));
      ProductLead(f, p, q);
    }
  }

  /** The product of non-zero polynomials whose leading coefficients have a non-zero product. */
  lemma ProductLead(f: F.Field, p: seq<nat>, q: seq<nat>)
    requires F.Valid(f) && IsPoly(f, p) && IsPoly(f, q) && !IsZero(p) && !IsZero(q)
    requires F.Multiply(f, Lead(p), Lead(q)) != 0
    ensures !IsZero(Multiply(f, p, q)) && Degree(Multiply(f, p, q)) == Degree(p) + Degree(q)
    ensures Lead(Multiply(f, p, q)) == F.Multiply(f, Lead(p), Lead(q))
  {
    ProductTop(f, p, q);
    LeadFromCoefs(Multiply(f, p, q), Degree(p) + Degree(q), F.Multiply(f, Lead(p), Lead(q)));
  }

  /** The product's coefficients: the leading product at deg p + deg q, nothing above it. */
  lemma ProductTop(f: F.Field, p: seq<nat>, q: seq<nat>)
    requires F.Valid(f) && IsPoly(f, p) && IsPoly(f, q) && !IsZero(p) && !IsZero(q)
    ensures Coef(Multiply(f, p, q), Degree(p) + Degree(q)) == F.Multiply(f, Lead(p), Lead(q))
    ensures forall i: nat :: i > Degree(p) + Degree(q) ==> Coef(Multiply(f, p, q), i) == 0
  {
    ProductAtTop(f, p, q);
    ProductAbove(f, p, q);
  }

  /** The convolution at deg p + deg q is the product of the leading coefficients. */
  lemma ProductAtTop(f: F.Field, p: seq<nat>, q: seq<nat>)
    requires F.Valid(f) && IsPoly(f, p) && IsPoly(f, q) && !IsZero(p) && !IsZero(q)
    ensures ProductAt(f, p, q, Degree(p) + Degree(q)) == F.Multiply(f, Lead(p), Lead(q))
  {
    ConvTop(f, p, q, Degree(p) + Degree(q) + 1);
  }

  /** Convolution terms past deg p + deg q vanish. */
  lemma ProductAbove(f: F.Field, p: seq<nat>, q: seq<nat>)
    requires F.Valid(f) && IsPoly(f, p) && IsPoly(f, q) && !IsZero(p) && !IsZero(q)
    ensures forall i: nat :: i > Degree(p) + Degree(q) ==> ProductAt(f, p, q, i) == 0
  {
    forall i: nat | i > Degree(p) + Degree(q)
      ensures ProductAt(f, p, q, i) == 0
    {
      ConvVanishes(f, p, q, i, i + 1);
    }
  }

  /** A normalised sequence whose top non-zero coefficient sits at k has degree k and that lead. */
  lemma LeadFromCoefs(r: seq<nat>, k: nat, v: nat)
    requires Normalized(r) && v != 0 && Coef(r, k) == v
    requires forall i: nat :: i > k ==> Coef(r, i) == 0
    ensures !IsZero(r) && Degree(r) == k && Lead(r) == v
  {
    DegreeIs(r, k);
    CoefLead(r);
  }

  /** multiply(scalar): 0 gives Zero, 1 gives the polynomial back, any other non-zero scalar keeps the degree. */
  lemma ScalarLaws(f: F.Field, p: seq<nat>, s: nat)
    requires F.Primitive(f) && IsPoly(f, p) && s < f.size
    ensures F.Valid(f)
    ensures MultiplyScalar(f, p, 0) == Zero
    ensures MultiplyScalar(f, p, 1) == p
    ensures s != 0 && !IsZero(p) ==> !IsZero(MultiplyScalar(f, p, s)) && Degree(MultiplyScalar(f, p, s)) == Degree(p)
  {
    Laws.PrimitiveValid(f);
    if s != 0 && !IsZero(p) {
      var r := MultiplyScalar(f, p, s);
      CoefLead(p);
      Laws.MulNonZero(f, Lead(p), s);
      DegreeIs(r, Degree(p));
    }
  }

  /** multiplyByMonomial shifts the degree up by `degree` for a non-zero coefficient. */
  lemma MonomialShift(f: F.Field, p: seq<nat>, degree: int, c: nat)
    requires F.Primitive(f) && IsPoly(f, p) && c < f.size
    ensures F.Valid(f)
    ensures degree < 0 ==> MultiplyByMonomial(f, p, degree, c).Failure?
    ensures degree >= 0 && c == 0 ==> MultiplyByMonomial(f, p, degree, c) == Results.Success(Zero)
    ensures degree >= 0 && c != 0 && !IsZero(p) ==>
      var r := MultiplyByMonomial(f, p, degree, c).value;
      !IsZero(r) && Degree(r) == Degree(p) + degree
  {
    Laws.PrimitiveValid(f);
    if degree >= 0 && c != 0 && !IsZero(p) {
      var r := MulMono(f, p, degree, c);
      CoefLead(p);
      Laws.MulNonZero(f, Lead(p), c);
      DegreeIs(r, Degree(p) + degree);
    }
  }

  /** The coefficient array extended with leading zeros to length n. */
  function Pad(s: seq<nat>, n: nat): (r: seq<nat>)
    requires |s| <= n
    ensures |r| == n
    ensures forall i: nat :: Coef(r, i) == Coef(s, i)
  {
    seq(n, i requires 0 <= i < n => if i < n - |s| then 0 else s[i - (n - |s|)])
  }

  lemma PadInField(f: F.Field, s: seq<nat>, n: nat)
    requires InField(f, s) && |s| <= n && f.size >= 1
    ensures InField(f, Pad(s, n))
  {
  }

  /** Leading zero coefficients do not change Horner evaluation. */
  lemma {:induction false} HornerPad(f: F.Field, s: seq<nat>, n: nat, a: nat)
    requires F.Valid(f) && InField(f, s) && a < f.size && |s| <= n
    ensures InField(f, Pad(s, n))
    ensures Horner(f, Pad(s, n), a) == Horner(f, s, a)
  {
    PadInField(f, s, n);
    if n > 0 {
      var m := n - 1;
      if |s| == 0 {
        HornerPad(f, s, m, a);
        assert Pad(s, n)[..m] == Pad(s, m);
        assert Pad(s, n)[m] == 0;
        XorZero(0);
      } else {
        var s' := s[..|s| - 1];
        HornerPad(f, s', m, a);
        assert Pad(s, n)[..m] == Pad(s', m);
        assert Pad(s, n)[m] == s[|s| - 1];
      }
    }
  }

  /** Horner evaluation depends only on the coefficients, not on how many leading zeros are stored. */
  lemma HornerByCoefs(f: F.Field, s: seq<nat>, t: seq<nat>, a: nat)
    requires F.Valid(f) && InField(f, s) && InField(f, t) && a < f.size
    requires forall i: nat :: Coef(s, i) == Coef(t, i)
    ensures Horner(f, s, a) == Horner(f, t, a)
  {
    if |s| <= |t| {
      HornerPad(f, s, |t|, a);
      PadEqual(s, t);
    } else {
      HornerPad(f, t, |s|, a);
      PadEqual(t, s);
    }
  }

  /** A shorter array with the same coefficients is the longer one minus its leading zeros. */
  lemma PadEqual(s: seq<nat>, t: seq<nat>)
    requires |s| <= |t|
    requires forall i: nat :: Coef(s, i) == Coef(t, i)
    ensures Pad(s, |t|) == t
  {
    var padded := Pad(s, |t|);
    forall j | 0 <= j < |t|
      ensures padded[j] == t[j]
    {
      var i: nat := |t| - 1 - j;
      assert Coef(t, i) == t[j];
      assert Coef(padded, i) == padded[j];
    }
  }

  /** Pointwise XOR of two equally long coefficient arrays. */
  function XorSeq(s: seq<nat>, t: seq<nat>): (r: seq<nat>)
    requires |s| == |t|
    ensures |r| == |s|
  {
    seq(|s|, i requires 0 <= i < |s| => Xor(s[i], t[i]))
  }

  lemma XorSeqCoefs(s: seq<nat>, t: seq<nat>)
    requires |s| == |t|
    ensures forall i: nat :: i < |s| ==> Coef(XorSeq(s, t), i) == Xor(Coef(s, i), Coef(t, i))
  {
  }

  lemma HornerXorSeq(f: F.Field, s: seq<nat>, t: seq<nat>, a: nat)
    requires F.Primitive(f) && F.Valid(f) && InField(f, s) && InField(f, t) && a < f.size && |s| == |t|
    ensures InField(f, XorSeq(s, t))
    ensures Horner(f, XorSeq(s, t), a) == Xor(Horner(f, s, a), Horner(f, t, a))
  {
    forall x: nat, y: nat | x < f.size && y < f.size
      ensures Xor(x, y) < f.size && F.Multiply(f, a, Xor(x, y)) == Xor(F.Multiply(f, a, x), F.Multiply(f, a, y))
    {
      StepXor(f, a, x, y, 0, 0);
    }
    HornerXorLinear(f, s, t, a);
  }

  /** HornerXorSeq for any tables in which multiplying by a distributes over XOR. */
  lemma {:induction false} HornerXorLinear(f: F.Field, s: seq<nat>, t: seq<nat>, a: nat)
    requires F.Valid(f) && InField(f, s) && InField(f, t) && a < f.size && |s| == |t|
    requires forall x: nat, y: nat :: x < f.size && y < f.size ==>
      Xor(x, y) < f.size && F.Multiply(f, a, Xor(x, y)) == Xor(F.Multiply(f, a, x), F.Multiply(f, a, y))
    ensures InField(f, XorSeq(s, t))
    ensures Horner(f, XorSeq(s, t), a) == Xor(Horner(f, s, a), Horner(f, t, a))
  {
    XorSeqInField(f, s, t);
    if |s| > 0 {
      var n := |s| - 1;
      HornerXorLinear(f, s[..n], t[..n], a);
      var hs, ht := Horner(f, s[..n], a), Horner(f, t[..n], a);
      Xor4(F.Multiply(f, a, hs), F.Multiply(f, a, ht), s[n], t[n]);
      HornerXorClose(f, s, t, a, hs, ht);
    }
  }

  lemma XorSeqInField(f: F.Field, s: seq<nat>, t: seq<nat>)
    requires F.Valid(f) && InField(f, s) && InField(f, t) && |s| == |t|
    ensures InField(f, XorSeq(s, t))
  {
    var x := XorSeq(s, t);
    forall i | 0 <= i < |x|
      ensures x[i] < f.size
    {
      XorBound(s[i], t[i], Log2(f.size));
    }
  }

  /** The last Horner step of HornerXorSeq, given the claim for the shorter arrays and one Horner step's distributivity. */
  lemma HornerXorClose(f: F.Field, s: seq<nat>, t: seq<nat>, a: nat, hs: nat, ht: nat)
    requires F.Valid(f) && InField(f, s) && InField(f, t) && a < f.size && |s| == |t| > 0
    requires InField(f, XorSeq(s, t)) && InField(f, XorSeq(s[..|s| - 1], t[..|t| - 1]))
    requires hs == Horner(f, s[..|s| - 1], a) && ht == Horner(f, t[..|t| - 1], a)
    requires Horner(f, XorSeq(s[..|s| - 1], t[..|t| - 1]), a) == Xor(hs, ht) && Xor(hs, ht) < f.size
    requires Xor(F.Multiply(f, a, Xor(hs, ht)), Xor(s[|s| - 1], t[|t| - 1]))
          == Xor(Xor(F.Multiply(f, a, hs), s[|s| - 1]), Xor(F.Multiply(f, a, ht), t[|t| - 1]))
    ensures Horner(f, XorSeq(s, t), a) == Xor(Horner(f, s, a), Horner(f, t, a))
  {
    var n := |s| - 1;
    assert XorSeq(s, t)[..n] == XorSeq(s[..n], t[..n]);
  }

  /** One Horner step commutes with XOR: a(h + h') + (c + c') == (ah + c) + (ah' + c'). */
  lemma StepXor(f: F.Field, a: nat, h: nat, h': nat, c: nat, c': nat)
    requires F.Primitive(f) && F.Valid(f) && a < f.size && h < f.size && h' < f.size
    ensures Xor(h, h') < f.size
    ensures F.Multiply(f, a, Xor(h, h')) == Xor(F.Multiply(f, a, h), F.Multiply(f, a, h'))
    ensures Xor(F.Multiply(f, a, Xor(h, h')), Xor(c, c'))
         == Xor(Xor(F.Multiply(f, a, h), c), Xor(F.Multiply(f, a, h'), c'))
  {
    Laws.MulDistrib(f, h, h', a);
    Laws.MulComm(f, a, Xor(h, h'));
    Laws.MulComm(f, h, a);
    Laws.MulComm(f, h', a);
    Xor4(F.Multiply(f, a, h), F.Multiply(f, a, h'), c, c');
  }

  /** Evaluation of a sum is the sum of the evaluations. */
  lemma HornerAdd(f: F.Field, p: seq<nat>, q: seq<nat>, a: nat)
    requires F.Primitive(f) && F.Valid(f) && IsPoly(f, p) && IsPoly(f, q) && a < f.size
    ensures IsPoly(f, AddOrSubtract(p, q))
    ensures Horner(f, AddOrSubtract(p, q), a) == Xor(Horner(f, p, a), Horner(f, q, a))
  {
    AddInField(f, p, q);
    var n := if |p| > |q| then |p| else |q|;
    var ps, qs := Pad(p, n), Pad(q, n);
    HornerPad(f, p, n, a);
    HornerPad(f, q, n, a);
    HornerXorSeq(f, ps, qs, a);
    XorPadCoefs(p, q, n);
    HornerByCoefs(f, XorSeq(ps, qs), AddOrSubtract(p, q), a);
  }

  lemma XorPadCoefs(p: seq<nat>, q: seq<nat>, n: nat)
    requires Normalized(p) && Normalized(q) && |p| <= n && |q| <= n
    ensures forall i: nat :: Coef(XorSeq(Pad(p, n), Pad(q, n)), i) == Coef(AddOrSubtract(p, q), i)
  {
    var x := XorSeq(Pad(p, n), Pad(q, n));
    XorSeqCoefs(Pad(p, n), Pad(q, n));
    forall i: nat
      ensures Coef(x, i) == Coef(AddOrSubtract(p, q), i)
    {
      if i >= n {
        XorZero(0);
      }
    }
  }

  /** Evaluation of p * x is x times the evaluation of p. */
  lemma HornerShift(f: F.Field, p: seq<nat>, a: nat)
    requires F.Primitive(f) && F.Valid(f) && IsPoly(f, p) && a < f.size
    ensures IsPoly(f, MulMono(f, p, 1, 1))
    ensures Horner(f, MulMono(f, p, 1, 1), a) == F.Multiply(f, a, Horner(f, p, a))
  {
    forall x: nat | x < f.size
      ensures F.Multiply(f, x, 1) == x
    {
      Laws.MulOne(f, x);
    }
    HornerShiftOne(f, p, a);
  }

  /** HornerShift for any tables in which 1 is a right identity. */
  lemma HornerShiftOne(f: F.Field, p: seq<nat>, a: nat)
    requires F.Valid(f) && IsPoly(f, p) && a < f.size
    requires forall x: nat :: x < f.size ==> F.Multiply(f, x, 1) == x
    ensures IsPoly(f, MulMono(f, p, 1, 1))
    ensures Horner(f, MulMono(f, p, 1, 1), a) == F.Multiply(f, a, Horner(f, p, a))
  {
    var shifted := p + [0];
    assert shifted[..|p|] == p;
    XorZero(F.Multiply(f, a, Horner(f, p, a)));
    forall i: nat
      ensures Coef(shifted, i) == Coef(MulMono(f, p, 1, 1), i)
    {
      if i >= 1 {
        assert F.Multiply(f, Coef(p, i - 1), 1) == Coef(p, i - 1);
      }
    }
    HornerByCoefs(f, shifted, MulMono(f, p, 1, 1), a);
  }

  /** Each coefficient multiplied by the same scalar. */
  function ScaleSeq(f: F.Field, s: seq<nat>, c: nat): (r: seq<nat>)
    requires F.Valid(f) && InField(f, s) && c < f.size
    ensures |r| == |s| && InField(f, r)
    ensures forall i: nat :: i < |s| ==> Coef(r, i) == F.Multiply(f, Coef(s, i), c)
  {
    seq(|s|, i requires 0 <= i < |s| => F.Multiply(f, s[i], c))
  }

  lemma HornerScaleSeq(f: F.Field, s: seq<nat>, c: nat, a: nat)
    requires F.Primitive(f) && F.Valid(f) && InField(f, s) && c < f.size && a < f.size
    ensures Horner(f, ScaleSeq(f, s, c), a) == F.Multiply(f, Horner(f, s, a), c)
  {
    forall x: nat, y: nat | x < f.size && y < f.size
      ensures Xor(x, y) < f.size && F.Multiply(f, Xor(x, y), c) == Xor(F.Multiply(f, x, c), F.Multiply(f, y, c))
    {
      Laws.MulDistrib(f, x, y, c);
    }
    forall h: nat | h < f.size
      ensures F.Multiply(f, F.Multiply(f, a, h), c) == F.Multiply(f, a, F.Multiply(f, h, c))
    {
      Laws.MulAssoc(f, a, h, c);
    }
    HornerScaleLinear(f, s, c, a);
  }

  /** HornerScaleSeq for any tables in which multiplying by c distributes over XOR and associates with a. */
  lemma {:induction false} HornerScaleLinear(f: F.Field, s: seq<nat>, c: nat, a: nat)
    requires F.Valid(f) && InField(f, s) && c < f.size && a < f.size
    requires forall x: nat, y: nat :: x < f.size && y < f.size ==>
      Xor(x, y) < f.size && F.Multiply(f, Xor(x, y), c) == Xor(F.Multiply(f, x, c), F.Multiply(f, y, c))
    requires forall h: nat :: h < f.size ==> F.Multiply(f, F.Multiply(f, a, h), c) == F.Multiply(f, a, F.Multiply(f, h, c))
    ensures Horner(f, ScaleSeq(f, s, c), a) == F.Multiply(f, Horner(f, s, a), c)
  {
    if |s| > 0 {
      var n := |s| - 1;
      HornerScaleLinear(f, s[..n], c, a);
      var h := Horner(f, s[..n], a);
      HornerScaleClose(f, s, c, a, h);
    }
  }

  /** The last Horner step of HornerScaleSeq, given the claim for the shorter array and the field laws it needs. */
  lemma HornerScaleClose(f: F.Field, s: seq<nat>, c: nat, a: nat, h: nat)
    requires F.Valid(f) && InField(f, s) && c < f.size && a < f.size && |s| > 0
    requires h == Horner(f, s[..|s| - 1], a)
    requires Horner(f, ScaleSeq(f, s[..|s| - 1], c), a) == F.Multiply(f, h, c)
    requires F.Multiply(f, F.Multiply(f, a, h), c) == F.Multiply(f, a, F.Multiply(f, h, c))
    requires Xor(F.Multiply(f, a, h), s[|s| - 1]) < f.size
    requires F.Multiply(f, Xor(F.Multiply(f, a, h), s[|s| - 1]), c)
          == Xor(F.Multiply(f, F.Multiply(f, a, h), c), F.Multiply(f, s[|s| - 1], c))
    ensures Horner(f, ScaleSeq(f, s, c), a) == F.Multiply(f, Horner(f, s, a), c)
  {
    var n := |s| - 1;
    assert ScaleSeq(f, s, c)[..n] == ScaleSeq(f, s[..n], c);
  }

  /** Evaluation of a scalar multiple is the scalar multiple of the evaluation. */
  lemma HornerScalar(f: F.Field, p: seq<nat>, c: nat, a: nat)
    requires F.Primitive(f) && F.Valid(f) && IsPoly(f, p) && c < f.size && a < f.size
    ensures Horner(f, MultiplyScalar(f, p, c), a) == F.Multiply(f, Horner(f, p, a), c)
  {
    HornerScaleSeq(f, p, c, a);
    var x, r := ScaleSeq(f, p, c), MultiplyScalar(f, p, c);
    ScalarCoefs(f, p, c);
    assert forall i: nat :: Coef(x, i) == Coef(r, i);
    HornerByCoefs(f, x, r, a);
  }

  /** Splitting off the constant term c0 of p: (p' * x + c0) * q == p' * q * x + c0 * q. */
  lemma {:induction false} ConvSplit(f: F.Field, p: seq<nat>, q: seq<nat>, k: nat, n: nat)
    requires F.Valid(f) && InField(f, p) && InField(f, q) && |p| >= 1 && 1 <= k && n <= k
    ensures Conv(f, p, q, k, n + 1)
         == Xor(Conv(f, p[..|p| - 1], q, k - 1, n), F.Multiply(f, Coef(p, 0), Coef(q, k)))
  {
    var p' := p[..|p| - 1];
    var t0 := F.Multiply(f, Coef(p, 0), Coef(q, k));
    if n == 0 {
      XorZero(t0);
    } else {
      ConvSplit(f, p, q, k, n - 1);
      assert Coef(p, n) == Coef(p', n - 1);
      XorSwap(Conv(f, p', q, k - 1, n - 1), t0, F.Multiply(f, Coef(p', n - 1), Coef(q, k - 1 - (n - 1))));
    }
  }

  /** Coefficient k of p * q, with p split as p' * x + c0. */
  lemma ProductSplitCoef(f: F.Field, p: seq<nat>, q: seq<nat>, k: nat)
    requires F.Valid(f) && InField(f, p) && InField(f, q) && |p| >= 1
    ensures ProductAt(f, p, q, k)
         == Xor(if k == 0 then 0 else ProductAt(f, p[..|p| - 1], q, k - 1), F.Multiply(f, Coef(q, k), Coef(p, 0)))
  {
    Laws.MulComm(f, Coef(q, k), Coef(p, 0));
    if k == 0 {
      assert Conv(f, p, q, 0, 1) == Xor(0, F.Multiply(f, Coef(p, 0), Coef(q, 0)));
      XorZero(F.Multiply(f, Coef(p, 0), Coef(q, 0)));
    } else {
      ConvSplit(f, p, q, k, k);
    }
  }

  /** The product with p split as p' * x + c0. */
  lemma ProductSplit(f: F.Field, p: seq<nat>, q: seq<nat>)
    requires F.Primitive(f) && F.Valid(f) && IsPoly(f, p) && IsPoly(f, q) && |p| >= 2
    ensures IsPoly(f, p[..|p| - 1])
    ensures Multiply(f, p, q)
         == AddOrSubtract(MulMono(f, Multiply(f, p[..|p| - 1], q), 1, 1), MultiplyScalar(f, q, Coef(p, 0)))
  {
    var p' := p[..|p| - 1];
    var c0 := Coef(p, 0);
    var pq' := Multiply(f, p', q);
    var lhs := Multiply(f, p, q);
    var rhs := AddOrSubtract(MulMono(f, pq', 1, 1), MultiplyScalar(f, q, c0));
    ScalarCoefs(f, q, c0);
    forall k: nat
      ensures Coef(lhs, k) == Coef(rhs, k)
    {
      ProductSplitCoef(f, p, q, k);
      if k > 0 {
        Laws.MulOne(f, Coef(pq', k - 1));
      }
    }
    Extensionality(lhs, rhs);
  }

  /** Evaluation is multiplicative: (p * q)(a) == p(a) * q(a). */
  lemma {:induction false} HornerMultiply(f: F.Field, p: seq<nat>, q: seq<nat>, a: nat)
    requires F.Primitive(f) && IsPoly(f, p) && IsPoly(f, q) && a < f.size
    ensures F.Valid(f)
    ensures Horner(f, Multiply(f, p, q), a) == F.Multiply(f, Horner(f, p, a), Horner(f, q, a))
    decreases |p|
  {
    Laws.PrimitiveValid(f);
    var hq := Horner(f, q, a);
    if |p| == 1 {
      var c0 := p[0];
      assert p[..0] == [];
      XorZero(c0);
      assert Horner(f, p, a) == c0;
      ScalarCoefs(f, q, c0);
      forall k: nat
        ensures Coef(Multiply(f, p, q), k) == Coef(MultiplyScalar(f, q, c0), k)
      {
        ConvSplitOne(f, p, q, k);
        Laws.MulComm(f, Coef(q, k), c0);
      }
      Extensionality(Multiply(f, p, q), MultiplyScalar(f, q, c0));
      HornerScalar(f, q, c0, a);
      Laws.MulComm(f, hq, c0);
    } else {
      var p' := p[..|p| - 1];
      var c0 := Coef(p, 0);
      ProductSplit(f, p, q);
      var pq' := Multiply(f, p', q);
      HornerMultiply(f, p', q, a);
      HornerAdd(f, MulMono(f, pq', 1, 1), MultiplyScalar(f, q, c0), a);
      HornerShift(f, pq', a);
      HornerScalar(f, q, c0, a);
      var hp' := Horner(f, p', a);
      Laws.MulAssoc(f, a, hp', hq);
      Laws.MulComm(f, hq, c0);
      Laws.MulDistrib(f, F.Multiply(f, a, hp'), c0, hq);
    }
  }

  /** For a constant p == [c0] every coefficient of p * q is c0 * q_k. */
  lemma ConvSplitOne(f: F.Field, p: seq<nat>, q: seq<nat>, k: nat)
    requires F.Valid(f) && InField(f, p) && InField(f, q) && |p| == 1
    ensures ProductAt(f, p, q, k) == F.Multiply(f, p[0], Coef(q, k))
  {
    ConvMonomial(f, p, 0, p[0], q, k, k + 1);
  }
}
