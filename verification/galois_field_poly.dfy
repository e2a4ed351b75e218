/**
 * Immutable polynomials over a Galois field, coefficients stored highest degree
 * first. A normalised polynomial has a non-zero leading coefficient or is the
 * zero polynomial [0].
 */
module GaloisFieldPoly {
  import opened Bits
  import opened Results
  import F = GaloisField
  import Laws = FieldLaws

  predicate Normalized(p: seq<nat>)
  {
    |p| >= 1 && (|p| == 1 || p[0] != 0)
  }

  /** Every coefficient is an element of the field. */
  predicate InField(f: F.Field, p: seq<nat>)
  {
    forall i :: 0 <= i < |p| ==> p[i] < f.size
  }

  predicate IsPoly(f: F.Field, p: seq<nat>)
  {
    Normalized(p) && InField(f, p)
  }

  const Zero: seq<nat> := [0]
  const One: seq<nat> := [1]

  /** The coefficient of x^i; zero above the stored degree. */
  function Coef(p: seq<nat>, i: nat): nat
  {
    if i < |p| then p[|p| - 1 - i] else 0
  }

  function Zeros(n: nat): (z: seq<nat>)
    ensures |z| == n && forall i :: 0 <= i < n ==> z[i] == 0
  {
    seq(n, _ => 0)
  }

  /** Index of the first non-zero coefficient at or after i, or |c| if there is none. */
  function FirstNonZero(c: seq<nat>, i: nat): (k: nat)
    requires i <= |c|
    ensures i <= k <= |c|
    ensures k == |c| || c[k] != 0
    ensures forall j :: i <= j < k ==> c[j] == 0
    decreases |c| - i
  {
    if i < |c| && c[i] == 0 then FirstNonZero(c, i + 1) else i
  }

  /** Strips leading zero coefficients, collapsing an all-zero input to [0]. */
  function Normalize(c: seq<nat>): (p: seq<nat>)
    requires |c| >= 1
    ensures Normalized(p)
    ensures forall i: nat :: Coef(p, i) == Coef(c, i)
    ensures p == Zero || |p| <= |c|
  {
    if |c| > 1 && c[0] == 0 then
      var k := FirstNonZero(c, 1);
      if k == |c| then Zero else c[k..]
    else c
  }

  lemma NormalizeInField(f: F.Field, c: seq<nat>)
    requires |c| >= 1 && InField(f, c) && f.size >= 1
    ensures InField(f, Normalize(c))
  {
    var p := Normalize(c);
    if p != Zero {
      forall i | 0 <= i < |p|
        ensures p[i] < f.size
      {
        assert p[i] == c[|c| - |p| + i];
      }
    }
  }

  /** The polynomial constructor: an empty coefficient array is rejected. */
  function NewPoly(c: seq<nat>): (r: Result<seq<nat>>)
    ensures |c| == 0 <==> r.Failure?
    ensures r.Success? ==> Normalized(r.value) && forall i: nat :: Coef(r.value, i) == Coef(c, i)
  {
    if |c| == 0 then Failure(ArgumentError) else Success(Normalize(c))
  }

  function Degree(p: seq<nat>): int
  {
    |p| - 1
  }

  predicate IsZero(p: seq<nat>)
    requires |p| >= 1
  {
    p[0] == 0
  }

  /** The leading coefficient. */
  function Lead(p: seq<nat>): nat
    requires |p| >= 1
  {
    p[0]
  }

  /** Reads the coefficient of x^degree from the low end of the array. */
  function GetCoefficient(p: seq<nat>, degree: int): (c: nat)
    requires 0 <= degree < |p|
    ensures c == Coef(p, degree)
    ensures degree == Degree(p) ==> c == Lead(p)
  {
    p[|p| - 1 - degree]
  }

  /** The leading coefficient is the coefficient of x^Degree. */
  lemma CoefLead(p: seq<nat>)
    ensures |p| >= 1 ==> Coef(p, |p| - 1) == p[0]
  {
  }

  /** A normalised polynomial is zero exactly when all its coefficients are. */
  lemma ZeroIffCoefs(p: seq<nat>)
    requires Normalized(p)
    ensures IsZero(p) <==> p == Zero
    ensures IsZero(p) <==> forall i: nat :: Coef(p, i) == 0
    ensures !IsZero(p) ==> Coef(p, Degree(p)) != 0
  {
    if !IsZero(p) {
      assert Coef(p, |p| - 1) == p[0];
    }
  }

  /** Normalised polynomials with the same coefficients are the same array. */
  lemma Extensionality(p: seq<nat>, q: seq<nat>)
    requires Normalized(p) && Normalized(q)
    requires forall i: nat :: Coef(p, i) == Coef(q, i)
    ensures p == q
  {
    CoefLead(p);
    CoefLead(q);
    forall j | 0 <= j < |p|
      ensures p[j] == q[j]
    {
      assert Coef(p, |p| - 1 - j) == Coef(q, |q| - 1 - j);
    }
  }

  /**
   * A normalised polynomial whose coefficients vanish from x^n upwards is zero
   * or has degree below n.
   */
  lemma DegreeBelow(p: seq<nat>, n: nat)
    requires Normalized(p)
    requires forall i: nat :: i >= n ==> Coef(p, i) == 0
    ensures IsZero(p) || Degree(p) < n
  {
    CoefLead(p);
  }

  /** A normalised polynomial with a non-zero coefficient at x^n and none above has degree n. */
  lemma DegreeIs(p: seq<nat>, n: nat)
    requires Normalized(p)
    requires Coef(p, n) != 0
    requires forall i: nat :: i > n ==> Coef(p, i) == 0
    ensures !IsZero(p) && Degree(p) == n
  {
    DegreeBelow(p, n + 1);
    CoefLead(p);
  }

  /** XOR of all coefficients, in array order. */
  function XorAll(c: seq<nat>): nat
  {
    if |c| == 0 then 0 else Xor(XorAll(c[..|c| - 1]), c[|c| - 1])
  }

  /** Horner evaluation: result = a * result + c for each coefficient, highest first. */
  function Horner(f: F.Field, c: seq<nat>, a: nat): (r: nat)
    requires F.Valid(f) && InField(f, c) && a < f.size
    ensures r < f.size
  {
    if |c| == 0 then 0
    else
      var h := Horner(f, c[..|c| - 1], a);
      var r := Xor(F.Multiply(f, a, h), c[|c| - 1]);
      XorBound(F.Multiply(f, a, h), c[|c| - 1], Log2(f.size));
      r
  }

  /** evaluateAt: short cuts for x = 0 (the constant term) and x = 1 (the XOR of all coefficients), Horner's scheme otherwise. */
  function EvaluateAt(f: F.Field, p: seq<nat>, a: nat): (r: nat)
    requires F.Valid(f) && IsPoly(f, p) && a < f.size
    ensures r < f.size
  {
    if a == 0 then
      GetCoefficient(p, 0)
    else if a == 1 then
      XorAllInField(f, p);
      XorAll(p)
    else
      Horner(f, p, a)
  }

  /** The short cuts agree with Horner's scheme: the one for x = 0 for any tables, the one for x = 1 in a primitive field. */
  lemma EvaluateAtHorner(f: F.Field, p: seq<nat>, a: nat)
    requires F.Valid(f) && IsPoly(f, p) && a < f.size && (a != 1 || F.Primitive(f))
    ensures EvaluateAt(f, p, a) == Horner(f, p, a)
  {
    if a == 1 {
      HornerAtOne(f, p);
    }
  }

  lemma {:induction false} XorAllInField(f: F.Field, c: seq<nat>)
    requires F.Valid(f) && InField(f, c)
    ensures XorAll(c) < f.size
  {
    if |c| > 0 {
      XorAllInField(f, c[..|c| - 1]);
      XorBound(XorAll(c[..|c| - 1]), c[|c| - 1], Log2(f.size));
    }
  }

  /** At x = 1 every multiplication in Horner's scheme is the identity. */
  lemma {:induction false} HornerAtOne(f: F.Field, c: seq<nat>)
    requires F.Primitive(f) && InField(f, c)
    ensures F.Valid(f) && Horner(f, c, 1) == XorAll(c)
  {
    Laws.PrimitiveValid(f);
    if |c| > 0 {
      HornerAtOne(f, c[..|c| - 1]);
      Laws.MulOne(f, Horner(f, c[..|c| - 1], 1));
    }
  }

  /**
   * addOrSubtract: XOR of the coefficient arrays aligned at the low-degree end,
   * the shorter one implicitly zero-extended, then renormalised.
   */
  function AddOrSubtract(p: seq<nat>, q: seq<nat>): (r: seq<nat>)
    requires Normalized(p) && Normalized(q)
    ensures Normalized(r)
    ensures forall i: nat :: Coef(r, i) == Xor(Coef(p, i), Coef(q, i))
  {
    if IsZero(p) then
      ZeroIffCoefs(p);
      q
    else if IsZero(q) then
      ZeroIffCoefs(q);
      p
    else
      var small := if |p| > |q| then q else p;
      var large := if |p| > |q| then p else q;
      var diff := |large| - |small|;
      var sum := seq(|large|, i requires 0 <= i < |large| =>
        if i < diff then large[i] else Xor(small[i - diff], large[i]));
      assert forall i: nat :: Coef(sum, i) == Xor(Coef(p, i), Coef(q, i)) by {
        forall i: nat
          ensures Coef(sum, i) == Xor(Coef(p, i), Coef(q, i))
        {
          AlignedSumCoef(small, large, sum, i);
          XorComm(Coef(p, i), Coef(q, i));
        }
      }
      Normalize(sum)
  }

  /** A coefficient of the aligned XOR: the shorter operand counts as zero above its length. */
  lemma AlignedSumCoef(small: seq<nat>, large: seq<nat>, sum: seq<nat>, i: nat)
    requires |small| <= |large| == |sum|
    requires forall j :: 0 <= j < |sum| ==>
      sum[j] == if j < |large| - |small| then large[j] else Xor(small[j - (|large| - |small|)], large[j])
    ensures Coef(sum, i) == Xor(Coef(small, i), Coef(large, i))
  {
    if i < |sum| {
      var j := |sum| - 1 - i;
      assert Coef(sum, i) == sum[j];
      if j >= |large| - |small| {
        assert Coef(small, i) == small[j - (|large| - |small|)];
      }
    }
  }

  lemma AddInField(f: F.Field, p: seq<nat>, q: seq<nat>)
    requires F.Valid(f) && IsPoly(f, p) && IsPoly(f, q)
    ensures IsPoly(f, AddOrSubtract(p, q))
  {
    var r := AddOrSubtract(p, q);
    forall j | 0 <= j < |r|
      ensures r[j] < f.size
    {
      var i := |r| - 1 - j;
      assert r[j] == Coef(r, i);
      XorBound(Coef(p, i), Coef(q, i), Log2(f.size));
    }
  }

  /** XOR over u < n of p_u * q_(k-u): the first n terms of the coefficient of x^k in p * q. */
  function Conv(f: F.Field, p: seq<nat>, q: seq<nat>, k: nat, n: nat): (r: nat)
    requires F.Valid(f) && InField(f, p) && InField(f, q) && n <= k + 1
    ensures r < f.size
  {
    if n == 0 then 0
    else
      var t := F.Multiply(f, Coef(p, n - 1), Coef(q, k - (n - 1)));
      XorBound(Conv(f, p, q, k, n - 1), t, Log2(f.size));
      Xor(Conv(f, p, q, k, n - 1), t)
  }

  /** The coefficient of x^k in the product p * q. */
  function ProductAt(f: F.Field, p: seq<nat>, q: seq<nat>, k: nat): nat
    requires F.Valid(f) && InField(f, p) && InField(f, q)
  {
    Conv(f, p, q, k, k + 1)
  }

  /** The product array before normalisation: one entry per power up to deg p + deg q. */
  function RawProduct(f: F.Field, p: seq<nat>, q: seq<nat>): (r: seq<nat>)
    requires F.Valid(f) && IsPoly(f, p) && IsPoly(f, q)
    ensures |r| == |p| + |q| - 1
    ensures forall i: nat :: i < |r| ==> Coef(r, i) == ProductAt(f, p, q, i)
  {
    var n := |p| + |q| - 1;
    seq(n, t requires 0 <= t < n => ProductAt(f, p, q, n - 1 - t))
  }

  /** Terms whose p-factor or q-factor lies outside the stored coefficients vanish. */
  lemma {:induction false} ConvVanishes(f: F.Field, p: seq<nat>, q: seq<nat>, k: nat, n: nat)
    requires F.Valid(f) && InField(f, p) && InField(f, q) && n <= k + 1
    requires forall u: nat :: u < n ==> Coef(p, u) == 0 || Coef(q, k - u) == 0
    ensures Conv(f, p, q, k, n) == 0
  {
    if n > 0 {
      ConvVanishes(f, p, q, k, n - 1);
    }
  }

  /** The polynomial product: full convolution, Zero when either factor is Zero. */
  function Multiply(f: F.Field, p: seq<nat>, q: seq<nat>): (r: seq<nat>)
    requires F.Valid(f) && IsPoly(f, p) && IsPoly(f, q)
    ensures IsPoly(f, r)
    ensures forall k: nat :: Coef(r, k) == ProductAt(f, p, q, k)
  {
    if IsZero(p) || IsZero(q) then
      ZeroIffCoefs(p);
      ZeroIffCoefs(q);
      assert forall k: nat :: ProductAt(f, p, q, k) == 0 by {
        forall k: nat
          ensures ProductAt(f, p, q, k) == 0
        {
          ConvVanishes(f, p, q, k, k + 1);
        }
      }
      Zero
    else
      var raw := RawProduct(f, p, q);
      assert forall k: nat :: Coef(raw, k) == ProductAt(f, p, q, k) by {
        forall k: nat
          ensures Coef(raw, k) == ProductAt(f, p, q, k)
        {
          if k >= |raw| {
            ConvVanishes(f, p, q, k, k + 1);
          }
        }
      }
      NormalizeInField(f, raw);
      Normalize(raw)
  }

  /** multiply(int): scales every coefficient, with short cuts for 0 and 1. */
  function MultiplyScalar(f: F.Field, p: seq<nat>, s: nat): (r: seq<nat>)
    requires F.Valid(f) && IsPoly(f, p) && s < f.size
    ensures IsPoly(f, r)
    ensures s == 1 ==> r == p
    ensures s != 1 ==> forall i: nat :: Coef(r, i) == F.Multiply(f, Coef(p, i), s)
  {
    if s == 0 then
      Zero
    else if s == 1 then
      p
    else
      var scaled := seq(|p|, i requires 0 <= i < |p| => F.Multiply(f, p[i], s));
      NormalizeInField(f, scaled);
      Normalize(scaled)
  }

  /** In a primitive field the short cut for 1 is multiplication too: every coefficient is scaled. */
  lemma ScalarCoefs(f: F.Field, p: seq<nat>, s: nat)
    requires F.Primitive(f) && F.Valid(f) && IsPoly(f, p) && s < f.size
    ensures forall i: nat :: Coef(MultiplyScalar(f, p, s), i) == F.Multiply(f, Coef(p, i), s)
  {
    if s == 1 {
      forall i: nat
        ensures Coef(p, i) == F.Multiply(f, Coef(p, i), 1)
      {
        Laws.MulOne(f, Coef(p, i));
      }
    }
  }

  /** p * c * x^degree: scaled coefficients followed by degree zeros. */
  function MulMono(f: F.Field, p: seq<nat>, degree: nat, c: nat): (r: seq<nat>)
    requires F.Valid(f) && IsPoly(f, p) && c < f.size
    ensures IsPoly(f, r)
    ensures forall i: nat :: Coef(r, i) == if i < degree then 0 else F.Multiply(f, Coef(p, i - degree), c)
  {
    if c == 0 then
      Zero
    else
      var product := seq(|p|, i requires 0 <= i < |p| => F.Multiply(f, p[i], c)) + Zeros(degree);
      assert forall i: nat :: Coef(product, i) == if i < degree then 0 else F.Multiply(f, Coef(p, i - degree), c) by {
        forall i: nat
          ensures Coef(product, i) == if i < degree then 0 else F.Multiply(f, Coef(p, i - degree), c)
        {
        }
      }
      NormalizeInField(f, product);
      Normalize(product)
  }

  /** multiplyByMonomial: a negative degree throws, coefficient 0 gives Zero. */
  function MultiplyByMonomial(f: F.Field, p: seq<nat>, degree: int, c: nat): (r: Result<seq<nat>>)
    requires F.Valid(f) && IsPoly(f, p) && c < f.size
    ensures degree < 0 <==> r.Failure?
    ensures r.Success? ==> IsPoly(f, r.value)
    ensures r.Success? ==> forall i: nat :: Coef(r.value, i) == if i < degree then 0 else F.Multiply(f, Coef(p, i - degree), c)
  {
    if degree < 0 then Failure(ArgumentError) else Success(MulMono(f, p, degree, c))
  }

  /** c * x^degree. */
  function Monomial(degree: nat, c: nat): (r: seq<nat>)
    ensures Normalized(r)
    ensures forall i: nat :: Coef(r, i) == if i == degree then c else 0
  {
    if c == 0 then Zero else Normalize([c] + Zeros(degree))
  }

  /** buildMonomial: a negative degree throws, coefficient 0 gives Zero. */
  function BuildMonomial(degree: int, c: nat): (r: Result<seq<nat>>)
    ensures degree < 0 <==> r.Failure?
    ensures r.Success? && c == 0 ==> r.value == Zero
    ensures r.Success? && c != 0 ==> Degree(r.value) == degree && Lead(r.value) == c
    ensures r.Success? ==> forall i: nat :: i != degree ==> Coef(r.value, i) == 0
  {
    if degree < 0 then Failure(ArgumentError) else Success(Monomial(degree, c))
  }

  /** The convolution is additive in its first factor. */
  lemma {:induction false} ConvAddLeft(f: F.Field, a: seq<nat>, b: seq<nat>, s: seq<nat>, q: seq<nat>, k: nat, n: nat)
    requires F.Primitive(f) && InField(f, a) && InField(f, b) && InField(f, s) && InField(f, q)
    requires n <= k + 1
    requires forall u: nat :: Coef(s, u) == Xor(Coef(a, u), Coef(b, u))
    ensures F.Valid(f)
    ensures Conv(f, s, q, k, n) == Xor(Conv(f, a, q, k, n), Conv(f, b, q, k, n))
  {
    Laws.PrimitiveValid(f);
    if n > 0 {
      ConvAddLeft(f, a, b, s, q, k, n - 1);
      var u := n - 1;
      Laws.MulDistrib(f, Coef(a, u), Coef(b, u), Coef(q, k - u));
      Xor4(Conv(f, a, q, k, u), Conv(f, b, q, k, u),
           F.Multiply(f, Coef(a, u), Coef(q, k - u)), F.Multiply(f, Coef(b, u), Coef(q, k - u)));
    }
  }

  /** Convolving with c * x^j picks out the single term c * q_(k-j). */
  lemma {:induction false} ConvMonomial(f: F.Field, m: seq<nat>, j: nat, c: nat, q: seq<nat>, k: nat, n: nat)
    requires F.Valid(f) && InField(f, m) && InField(f, q) && n <= k + 1 && c < f.size
    requires forall u: nat :: Coef(m, u) == if u == j then c else 0
    ensures Conv(f, m, q, k, n) == if j < n then F.Multiply(f, c, Coef(q, k - j)) else 0
  {
    if n > 0 {
      ConvMonomial(f, m, j, c, q, k, n - 1);
      XorZero(Conv(f, m, q, k, n - 1));
      if j == n - 1 {
        XorZero(F.Multiply(f, c, Coef(q, k - j)));
      }
    }
  }

  /** One coefficient of the division-step identity (q + m) * d + (r + m * d) == q * d + r. */
  lemma DivStepCoef(f: F.Field, d: seq<nat>, q: seq<nat>, r: seq<nat>, m: seq<nat>, k: nat, s: nat, i: nat)
    requires F.Primitive(f) && IsPoly(f, d) && IsPoly(f, q) && IsPoly(f, r) && s < f.size
    requires IsPoly(f, m) && m == Monomial(k, s)
    ensures F.Valid(f) && IsPoly(f, AddOrSubtract(q, m))
    ensures Xor(ProductAt(f, AddOrSubtract(q, m), d, i), Xor(Coef(r, i), Coef(MulMono(f, d, k, s), i)))
         == Xor(ProductAt(f, q, d, i), Coef(r, i))
  {
    Laws.PrimitiveValid(f);
    var q2 := AddOrSubtract(q, m);
    AddInField(f, q, m);
    var pq := ProductAt(f, q, d, i);
    ConvAddLeft(f, q, m, q2, d, i, i + 1);
    ConvMonomial(f, m, k, s, d, i, i + 1);
    var t := Coef(MulMono(f, d, k, s), i);
    if k <= i {
      Laws.MulComm(f, s, Coef(d, i - k));
    }
    assert ProductAt(f, q2, d, i) == Xor(pq, t);
    Xor4(pq, t, Coef(r, i), t);
    XorSelf(t);
    XorZero(Xor(pq, Coef(r, i)));
  }

  /** c * x^k has its coefficient in the field when c does. */
  lemma MonomialInField(f: F.Field, k: nat, s: nat)
    requires s < f.size
    ensures InField(f, Monomial(k, s))
  {
    var m := Monomial(k, s);
    forall i | 0 <= i < |m|
      ensures m[i] < f.size
    {
      assert m[i] == Coef(m, |m| - 1 - i);
    }
  }

  /** A division step keeps q * d + r unchanged. */
  lemma DivStepInvariant(f: F.Field, d: seq<nat>, q: seq<nat>, r: seq<nat>, k: nat, s: nat)
    requires F.Primitive(f) && IsPoly(f, d) && IsPoly(f, q) && IsPoly(f, r) && s < f.size
    ensures F.Valid(f) && IsPoly(f, Monomial(k, s)) && IsPoly(f, AddOrSubtract(q, Monomial(k, s)))
    ensures var q2 := AddOrSubtract(q, Monomial(k, s));
      var r2 := AddOrSubtract(r, MulMono(f, d, k, s));
      AddOrSubtract(Multiply(f, q2, d), r2) == AddOrSubtract(Multiply(f, q, d), r)
  {
    Laws.PrimitiveValid(f);
    var m := Monomial(k, s);
    MonomialInField(f, k, s);
    var q2 := AddOrSubtract(q, m);
    AddInField(f, q, m);
    var md := MulMono(f, d, k, s);
    var r2 := AddOrSubtract(r, md);
    var lhs := AddOrSubtract(Multiply(f, q2, d), r2);
    var rhs := AddOrSubtract(Multiply(f, q, d), r);
    forall i: nat
      ensures Coef(lhs, i) == Coef(rhs, i)
    {
      DivStepCoef(f, d, q, r, m, k, s, i);
    }
    Extensionality(lhs, rhs);
  }

  /** Size measure of a remainder: 0 for Zero, the array length otherwise. */
  function Weight(p: seq<nat>): nat
    requires |p| >= 1
  {
    if IsZero(p) then 0 else |p|
  }

  /** One division step cancels the leading term, so the remainder gets lighter. */
  lemma DivStepLowers(f: F.Field, d: seq<nat>, inv: nat, r: seq<nat>)
    requires F.Primitive(f) && IsPoly(f, d) && IsPoly(f, r) && !IsZero(d) && !IsZero(r)
    requires Degree(r) >= Degree(d) && inv < f.size && F.Multiply(f, Lead(d), inv) == 1
    ensures F.Valid(f)
    ensures var s := F.Multiply(f, Lead(r), inv);
      var r2 := AddOrSubtract(r, MulMono(f, d, Degree(r) - Degree(d), s));
      Weight(r2) < Weight(r)
  {
    Laws.PrimitiveValid(f);
    var k := Degree(r) - Degree(d);
    var s := F.Multiply(f, Lead(r), inv);
    var md := MulMono(f, d, k, s);
    var r2 := AddOrSubtract(r, md);
    CoefLead(r);
    CoefLead(d);
    forall i: nat | i >= Degree(r)
      ensures Coef(r2, i) == 0
    {
      if i == Degree(r) {
        calc {
          F.Multiply(f, Lead(d), s);
          { Laws.MulComm(f, Lead(r), inv); }
          F.Multiply(f, Lead(d), F.Multiply(f, inv, Lead(r)));
          { Laws.MulAssoc(f, Lead(d), inv, Lead(r)); }
          F.Multiply(f, 1, Lead(r));
          { Laws.MulOne(f, Lead(r)); }
          Lead(r);
        }
        Laws.MulComm(f, Lead(d), s);
        XorSelf(Lead(r));
      } else {
        XorZero(0);
      }
    }
    DegreeBelow(r2, Degree(r));
  }

  /** One round of the division loop keeps q * d + r, keeps both polynomials, and lowers r. */
  lemma DivStep(f: F.Field, d: seq<nat>, inv: nat, q: seq<nat>, r: seq<nat>, k: nat, s: nat)
    requires F.Primitive(f) && IsPoly(f, d) && !IsZero(d) && IsPoly(f, q) && IsPoly(f, r)
    requires inv < f.size && F.Valid(f) && F.Multiply(f, Lead(d), inv) == 1
    requires Degree(r) >= Degree(d) && !IsZero(r)
    requires k == Degree(r) - Degree(d) && s == F.Multiply(f, Lead(r), inv)
    ensures IsPoly(f, Monomial(k, s)) && IsPoly(f, MulMono(f, d, k, s))
    ensures IsPoly(f, AddOrSubtract(q, Monomial(k, s))) && IsPoly(f, AddOrSubtract(r, MulMono(f, d, k, s)))
    ensures Weight(AddOrSubtract(r, MulMono(f, d, k, s))) < Weight(r)
    ensures AddOrSubtract(Multiply(f, AddOrSubtract(q, Monomial(k, s)), d), AddOrSubtract(r, MulMono(f, d, k, s)))
      == AddOrSubtract(Multiply(f, q, d), r)
  {
    DivStepInvariant(f, d, q, r, k, s);
    DivStepLowers(f, d, inv, r);
    AddInField(f, r, MulMono(f, d, k, s));
  }

  /**
   * The long-division loop: while the remainder is non-zero and not below the
   * divisor's degree, cancel its leading term. It keeps q * d + r unchanged.
   */
  function DivLoop(f: F.Field, d: seq<nat>, inv: nat, q: seq<nat>, r: seq<nat>): (res: (seq<nat>, seq<nat>))
    requires F.Primitive(f) && IsPoly(f, d) && !IsZero(d) && IsPoly(f, q) && IsPoly(f, r)
    requires inv < f.size && F.Valid(f) && F.Multiply(f, Lead(d), inv) == 1
    ensures IsPoly(f, res.0) && IsPoly(f, res.1)
    ensures AddOrSubtract(Multiply(f, res.0, d), res.1) == AddOrSubtract(Multiply(f, q, d), r)
    ensures IsZero(res.1) || Degree(res.1) < Degree(d)
    decreases Weight(r)
  {
    if Degree(r) >= Degree(d) && !IsZero(r) then
      var k := Degree(r) - Degree(d);
      var s := F.Multiply(f, Lead(r), inv);
      DivStep(f, d, inv, q, r, k, s);
      DivLoop(f, d, inv, AddOrSubtract(q, Monomial(k, s)), AddOrSubtract(r, MulMono(f, d, k, s)))
    else
      (q, r)
  }

  /**
   * divide: a zero divisor throws; otherwise the quotient and remainder satisfy
   * p == q * d + r with r zero or of lower degree than d.
   */
  function Divide(f: F.Field, p: seq<nat>, d: seq<nat>): (res: Result<(seq<nat>, seq<nat>)>)
    requires F.Primitive(f) && F.Valid(f) && IsPoly(f, p) && IsPoly(f, d)
    ensures IsZero(d) <==> res.Failure?
    ensures res.Success? ==> IsPoly(f, res.value.0) && IsPoly(f, res.value.1)
    ensures res.Success? ==> AddOrSubtract(Multiply(f, res.value.0, d), res.value.1) == p
    ensures res.Success? ==> IsZero(res.value.1) || Degree(res.value.1) < Degree(d)
  {
    if IsZero(d) then
      Failure(ArgumentError)
    else
      CoefLead(d);
      Laws.InverseLaw(f, Lead(d));
      var inv := F.Inverse(f, Lead(d)).value;
      var res := DivLoop(f, d, inv, Zero, p);
      assert Multiply(f, Zero, d) == Zero;
      Success(res)
  }
}
