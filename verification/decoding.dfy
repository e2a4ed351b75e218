/**
 * Decoding one block: the syndromes, the Euclidean key-equation solver,
 * Chien's search for the error locations, Forney's formula for the error
 * magnitudes, and the corrections. A block the decoder gives up on comes back
 * as None (the source returns false or null); an exception is a Failure.
 */
module Decoding {
  import opened Bits
  import opened Results
  import F = GaloisField
  import Laws = FieldLaws
  import opened GaloisFieldPoly
  import PL = PolyLaws
  import PR = PolyRing
  import opened ReedSolomon

  /**
   * The syndromes S_0 .. S_(n-1) in evaluation order: S_i is the received
   * polynomial at alpha^(i + generatorBase); an exponent outside the exp table
   * throws.
   */
  function Syndromes(f: F.Field, poly: seq<nat>, n: nat): (r: Result<seq<nat>>)
    requires F.Valid(f) && IsPoly(f, poly)
    ensures r.Success? <==> n == 0 || (0 <= f.generatorBase && n - 1 + f.generatorBase < f.size)
    ensures r.Success? ==> |r.value| == n && InField(f, r.value)
    ensures r.Success? ==> forall i :: 0 <= i < n ==> r.value[i] == EvaluateAt(f, poly, f.expTable[i + f.generatorBase])
  {
    if n == 0 then
      Success([])
    else
      var s :- Syndromes(f, poly, n - 1);
      var x :- F.Exp(f, n - 1 + f.generatorBase);
      Success(s + [EvaluateAt(f, poly, x)])
  }

  /** The syndrome array: S_i is written at index n - 1 - i, which makes it the coefficient of x^i. */
  function SyndromeArray(s: seq<nat>): (r: seq<nat>)
    ensures |r| == |s|
    ensures forall i: nat :: i < |s| ==> Coef(r, i) == s[i]
  {
    seq(|s|, j requires 0 <= j < |s| => s[|s| - 1 - j])
  }

  /** t * inverse and r * inverse, the last step of the solver, once t(0) != 0. */
  function Scaled(f: F.Field, t: seq<nat>, r: seq<nat>, R: nat): (res: (seq<nat>, seq<nat>))
    requires F.Primitive(f) && F.Valid(f) && IsPoly(f, t) && IsPoly(f, r)
    requires Coef(t, 0) != 0 && Degree(r) < R / 2
    ensures IsPoly(f, res.0) && IsPoly(f, res.1)
    ensures Coef(res.0, 0) == 1 && Degree(res.1) < R / 2
  {
    var inv := F.Inverse(f, GetCoefficient(t, 0)).value;
    Laws.InverseLaw(f, Coef(t, 0));
    var sigma := MultiplyScalar(f, t, inv);
    var omega := MultiplyScalar(f, r, inv);
    ScalarCoefs(f, t, inv);
    ScalarCoefs(f, r, inv);
    forall i: nat | i > Degree(r)
      ensures Coef(omega, i) == 0
    {
      assert Coef(r, i) == 0;
    }
    DegreeBelow(omega, Degree(r) + 1);
    (sigma, omega)
  }

  /** q * tLast + tLastLast, the next multiplier of the solver. */
  function NextT(f: F.Field, q: seq<nat>, t: seq<nat>, tLast: seq<nat>): (r: seq<nat>)
    requires F.Primitive(f) && F.Valid(f) && IsPoly(f, q) && IsPoly(f, t) && IsPoly(f, tLast)
    ensures IsPoly(f, r)
    ensures forall i: nat :: Coef(r, i) == Xor(Coef(Multiply(f, q, t), i), Coef(tLast, i))
  {
    AddInField(f, Multiply(f, q, t), tLast);
    AddOrSubtract(Multiply(f, q, t), tLast)
  }

  /**
   * The loop of runEuclideanAlgorithm: rLast and r are the last two
   * remainders, tLast and t their multipliers. While deg r >= R / 2 the older
   * remainder is divided by the newer one (the inner loop is exactly long
   * division); the solver gives up on a zero divisor, on a remainder whose
   * degree does not drop, and on t(0) == 0.
   */
  function EuclidLoop(f: F.Field, R: nat, rLast: seq<nat>, r: seq<nat>, tLast: seq<nat>, t: seq<nat>): (res: Option<(seq<nat>, seq<nat>)>)
    requires F.Primitive(f) && F.Valid(f)
    requires IsPoly(f, rLast) && IsPoly(f, r) && IsPoly(f, tLast) && IsPoly(f, t)
    ensures res.Some? ==> IsPoly(f, res.value.0) && IsPoly(f, res.value.1)
    ensures res.Some? ==> Coef(res.value.0, 0) == 1 && Degree(res.value.1) < R / 2
    decreases |r|
  {
    if Degree(r) >= R / 2 then
      if IsZero(r) then
        None
      else
        var qr := Divide(f, rLast, r).value;
        var t2 := NextT(f, qr.0, t, tLast);
        if Degree(qr.1) >= Degree(r) then None
        else EuclidLoop(f, R, r, qr.1, t, t2)
    else if GetCoefficient(t, 0) == 0 then
      None
    else
      Some(Scaled(f, t, r, R))
  }

  /** runEuclideanAlgorithm(a, b, R): the operand of higher degree goes first; t starts at 0 and 1. */
  function RunEuclid(f: F.Field, a: seq<nat>, b: seq<nat>, R: nat): (res: Option<(seq<nat>, seq<nat>)>)
    requires F.Primitive(f) && F.Valid(f) && IsPoly(f, a) && IsPoly(f, b)
    ensures res.Some? ==> IsPoly(f, res.value.0) && IsPoly(f, res.value.1)
    ensures res.Some? ==> Coef(res.value.0, 0) == 1 && Degree(res.value.1) < R / 2
  {
    if Degree(a) < Degree(b) then EuclidLoop(f, R, b, a, Zero, One)
    else EuclidLoop(f, R, a, b, Zero, One)
  }

  /**
   * A scanning loop: for i = start, start + 1, ... below m, while fewer than
   * need values are found, every i passing the test contributes val(i).
   */
  function ScanLoop(keep: nat -> bool, val: nat -> nat, i: nat, m: nat, need: nat, found: seq<nat>): seq<nat>
    decreases m - i
  {
    if i >= m || |found| >= need then found
    else if keep(i) then ScanLoop(keep, val, i + 1, m, need, found + [val(i)])
    else ScanLoop(keep, val, i + 1, m, need, found)
  }

  /** The roots of sigma are the field elements at which it evaluates to 0. */
  function RootTest(f: F.Field, sigma: seq<nat>): nat -> bool
    requires F.Valid(f) && IsPoly(f, sigma)
  {
    (x: nat) => x < f.size && EvaluateAt(f, sigma, x) == 0
  }

  /** The inverse of a non-zero field element, and 0 elsewhere. */
  function InverseOf(f: F.Field): nat -> nat
    requires F.Valid(f)
  {
    (x: nat) => if 0 < x < f.size then F.Inverse(f, x).value else 0
  }

  /**
   * The scanning loop of findErrorLocations: for i = start, start + 1, ... below
   * the field size, while fewer than need locations are found, every root i of
   * sigma contributes the location 1/i.
   */
  function ChienScan(f: F.Field, sigma: seq<nat>, i: nat, need: nat, found: seq<nat>): (r: seq<nat>)
    requires F.Valid(f) && IsPoly(f, sigma) && i >= 1
    ensures InField(f, found) ==> InField(f, r)
  {
    ScanLoopBound(RootTest(f, sigma), InverseOf(f), i, f.size, need, found, f.size);
    ScanLoop(RootTest(f, sigma), InverseOf(f), i, f.size, need, found)
  }

  /** Every value the loop adds is below b when every val(x) in range is. */
  lemma {:induction false} ScanLoopBound(keep: nat -> bool, val: nat -> nat, i: nat, m: nat, need: nat, found: seq<nat>, b: nat)
    requires forall x: nat :: i <= x < m ==> val(x) < b
    ensures (forall j :: 0 <= j < |found| ==> found[j] < b) ==>
      forall j :: 0 <= j < |ScanLoop(keep, val, i, m, need, found)| ==> ScanLoop(keep, val, i, m, need, found)[j] < b
    decreases m - i
  {
    if i < m && |found| < need {
      if keep(i) {
        ScanLoopBound(keep, val, i + 1, m, need, found + [val(i)], b);
      } else {
        ScanLoopBound(keep, val, i + 1, m, need, found, b);
      }
    }
  }

  /**
   * findErrorLocations: a locator of degree 1 short-cuts to its x^1
   * coefficient; otherwise the scan must find exactly deg sigma locations.
   */
  function FindErrorLocations(f: F.Field, sigma: seq<nat>): (r: Option<seq<nat>>)
    requires F.Valid(f) && IsPoly(f, sigma)
    ensures r.Some? ==> InField(f, r.value)
  {
    var n := Degree(sigma);
    if n == 1 then
      Some([GetCoefficient(sigma, 1)])
    else
      var found := ChienScan(f, sigma, 1, n, []);
      if |found| != n then None else Some(found)
  }

  /** termPlus1 of Forney's formula: an even term gets bit 0 set, an odd one cleared. */
  function TermPlusOne(term: nat): (r: nat)
    ensures r == Xor(term, 1)
  {
    TermPlusOneIsXor(term);
    if And(term, 1) == 0 then Or(term, 1) else ClearLowBit(term)
  }

  lemma TermPlusOneIsXor(term: nat)
    ensures (if And(term, 1) == 0 then Or(term, 1) else ClearLowBit(term)) == Xor(term, 1)
  {
    if term > 0 {
      assert And(term, 1) == 2 * And(term / 2, 0) + (if term % 2 == 1 then 1 else 0);
      assert Xor(term, 1) == 2 * Xor(term / 2, 0) + (if term % 2 == 1 then 0 else 1);
      if term % 2 == 0 {
        assert Or(term, 1) == 2 * Or(term / 2, 0) + 1;
      }
    }
  }

  /** The product of termPlus1 over the locations j < n other than i, in loop order. */
  function Denominator(f: F.Field, locs: seq<nat>, i: nat, xiInv: nat, n: nat): (r: nat)
    requires F.Valid(f) && InField(f, locs) && n <= |locs| && xiInv < f.size
    ensures r < f.size
  {
    if n == 0 then
      1
    else
      var d := Denominator(f, locs, i, xiInv, n - 1);
      if n - 1 != i then
        var term := F.Multiply(f, locs[n - 1], xiInv);
        XorBound(term, 1, Log2(f.size));
        F.Multiply(f, d, TermPlusOne(term))
      else
        d
  }

  /**
   * Forney's magnitude for location i: omega(1/X_i) divided by the
   * denominator, times 1/X_i when the generator base is not 0. Inverting a
   * zero location or a zero denominator throws.
   */
  function Magnitude(f: F.Field, omega: seq<nat>, locs: seq<nat>, i: nat): (r: Result<nat>)
    requires F.Valid(f) && IsPoly(f, omega) && InField(f, locs) && i < |locs|
    ensures r.Success? ==> r.value < f.size
  {
    var xiInv :- F.Inverse(f, locs[i]);
    var den := Denominator(f, locs, i, xiInv, |locs|);
    var denInv :- F.Inverse(f, den);
    var m := F.Multiply(f, EvaluateAt(f, omega, xiInv), denInv);
    Success(if f.generatorBase != 0 then F.Multiply(f, m, xiInv) else m)
  }

  /** The magnitudes of locations 0 .. n-1, computed in order. */
  function Magnitudes(f: F.Field, omega: seq<nat>, locs: seq<nat>, n: nat): (r: Result<seq<nat>>)
    requires F.Valid(f) && IsPoly(f, omega) && InField(f, locs) && n <= |locs|
    ensures r.Success? ==> |r.value| == n && InField(f, r.value)
  {
    if n == 0 then
      Success([])
    else
      var ms :- Magnitudes(f, omega, locs, n - 1);
      var m :- Magnitude(f, omega, locs, n - 1);
      Success(ms + [m])
  }

  /** findErrorMagnitudes: one magnitude per location. */
  function FindErrorMagnitudes(f: F.Field, omega: seq<nat>, locs: seq<nat>): (r: Result<seq<nat>>)
    requires F.Valid(f) && IsPoly(f, omega) && InField(f, locs)
    ensures r.Success? ==> |r.value| == |locs| && InField(f, r.value)
  {
    Magnitudes(f, omega, locs, |locs|)
  }

  /**
   * The first n corrections: location l names position len - 1 - log l, which
   * is XOR-ed with its magnitude; a negative position gives up, the log of
   * zero throws.
   */
  function Correct(f: F.Field, received: seq<nat>, locs: seq<nat>, mags: seq<nat>, n: nat): (r: Result<Option<seq<nat>>>)
    requires F.Valid(f) && InField(f, received) && InField(f, mags)
    requires |mags| == |locs| && n <= |locs|
    ensures r.Success? && r.value.Some? ==> |r.value.value| == |received| && InField(f, r.value.value)
  {
    if n == 0 then
      Success(Some(received))
    else
      var prev :- Correct(f, received, locs, mags, n - 1);
      if prev.None? then
        Success(None)
      else
        var lg :- F.Log(f, locs[n - 1]);
        var position := |received| - 1 - lg;
        if position < 0 then
          Success(None)
        else
          var out := prev.value;
          XorBound(out[position], mags[n - 1], Log2(f.size));
          Success(Some(out[position := Xor(out[position], mags[n - 1])]))
  }

  /**
   * decode(int[]): a block with all syndromes zero is accepted as it is;
   * otherwise the solver, the search and Forney's formula find the
   * corrections. None stands for the source's false.
   */
  function DecodeBlock(c: Coder, received: seq<nat>): (r: Result<Option<seq<nat>>>)
    requires CoderValid(c) && InField(c.field, received)
    ensures r.Success? ==> c.ecSize >= 0
    ensures r.Success? && r.value.Some? ==> |r.value.value| == |received| && InField(c.field, r.value.value)
  {
    var f, e := c.field, c.ecSize;
    var poly :- NewPoly(received);
    if e < 0 then
      Failure(Overflow)
    else
      NormalizeInField(f, received);
      var s :- Syndromes(f, poly, e);
      if forall i :: 0 <= i < e ==> s[i] == 0 then
        Success(Some(received))
      else
        LocateAndCorrect(f, received, s)
  }

  /**
   * The part of decode(int[]) after a non-zero syndrome: the key equation
   * with x^(2S) and the syndrome polynomial, the search, Forney's formula and
   * the corrections.
   */
  function LocateAndCorrect(f: F.Field, received: seq<nat>, s: seq<nat>): (r: Result<Option<seq<nat>>>)
    requires F.Valid(f) && F.Primitive(f) && InField(f, received) && |s| >= 1 && InField(f, s)
    ensures r.Success? && r.value.Some? ==> |r.value.value| == |received| && InField(f, r.value.value)
  {
    var e := |s|;
    var syndrome := Normalize(SyndromeArray(s));
    NormalizeInField(f, SyndromeArray(s));
    MonomialInField(f, e, 1);
    match RunEuclid(f, Monomial(e, 1), syndrome, e)
    case None => Success(None)
    case Some(so) =>
      match FindErrorLocations(f, so.0)
      case None => Success(None)
      case Some(locs) =>
        var mags :- FindErrorMagnitudes(f, so.1, locs);
        Correct(f, received, locs, mags, |locs|)
  }

  /**
   * r = s * a + t * b, coefficient by coefficient: the relation the solver
   * keeps between each remainder r and its multiplier t. KeyIdentity shows it
   * is the identity between the polynomials.
   */
  ghost predicate KeyRelation(f: F.Field, a: seq<nat>, b: seq<nat>, r: seq<nat>, s: seq<nat>, t: seq<nat>)
    requires F.Valid(f) && InField(f, a) && InField(f, b) && InField(f, s) && InField(f, t)
  {
    forall k: nat :: Coef(r, k) == Xor(ProductAt(f, s, a, k), ProductAt(f, t, b, k))
  }

  /** For a normalised r the relation is exactly r == s * a + t * b. */
  lemma KeyIdentity(f: F.Field, a: seq<nat>, b: seq<nat>, r: seq<nat>, s: seq<nat>, t: seq<nat>)
    requires F.Valid(f) && IsPoly(f, a) && IsPoly(f, b) && IsPoly(f, s) && IsPoly(f, t) && Normalized(r)
    ensures KeyRelation(f, a, b, r, s, t) <==> AddOrSubtract(Multiply(f, s, a), Multiply(f, t, b)) == r
  {
    if KeyRelation(f, a, b, r, s, t) {
      Extensionality(AddOrSubtract(Multiply(f, s, a), Multiply(f, t, b)), r);
    }
  }

  /** The relation holds at every element of the field too: r(x) = s(x) * a(x) + t(x) * b(x). */
  lemma KeyPointwise(f: F.Field, a: seq<nat>, b: seq<nat>, r: seq<nat>, s: seq<nat>, t: seq<nat>)
    requires F.Primitive(f) && F.Valid(f) && IsPoly(f, a) && IsPoly(f, b) && IsPoly(f, s) && IsPoly(f, t)
    requires Normalized(r) && KeyRelation(f, a, b, r, s, t)
    ensures IsPoly(f, r)
    ensures forall x: nat :: x < f.size ==>
      Horner(f, r, x) == Xor(F.Multiply(f, Horner(f, s, x), Horner(f, a, x)), F.Multiply(f, Horner(f, t, x), Horner(f, b, x)))
  {
    KeyIdentity(f, a, b, r, s, t);
    AddInField(f, Multiply(f, s, a), Multiply(f, t, b));
    forall x: nat | x < f.size
      ensures Horner(f, r, x) == Xor(F.Multiply(f, Horner(f, s, x), Horner(f, a, x)), F.Multiply(f, Horner(f, t, x), Horner(f, b, x)))
    {
      PL.HornerAdd(f, Multiply(f, s, a), Multiply(f, t, b), x);
      PL.HornerMultiply(f, s, a, x);
      PL.HornerMultiply(f, t, b, x);
    }
  }

  /** From y + z == x follows z == x + y. */
  lemma XorSolve(x: nat, y: nat, z: nat)
    requires x == Xor(y, z)
    ensures z == Xor(x, y)
  {
    XorComm(y, z);
    XorCancel(z, y);
  }

  /** The coefficient form of one solver step: rLast + q * r, regrouped by a and b. */
  lemma KeyStepCoef(r2: nat, sa: nat, ta: nat, qsa: nat, qtb: nat)
    requires Xor(sa, ta) == Xor(Xor(qsa, qtb), r2)
    ensures r2 == Xor(Xor(qsa, sa), Xor(qtb, ta))
  {
    XorSolve(Xor(sa, ta), Xor(qsa, qtb), r2);
    Xor4(sa, ta, qsa, qtb);
    XorComm(Xor(sa, qsa), Xor(ta, qtb));
    XorComm(sa, qsa);
    XorComm(ta, qtb);
  }

  /** One step of the solver keeps the relation: the new remainder is rLast + q * r. */
  lemma KeyStep(f: F.Field, a: seq<nat>, b: seq<nat>, rLast: seq<nat>, r: seq<nat>, sLast: seq<nat>, s: seq<nat>,
                tLast: seq<nat>, t: seq<nat>, q: seq<nat>, r2: seq<nat>)
    requires F.Primitive(f) && F.Valid(f) && IsPoly(f, a) && IsPoly(f, b)
    requires IsPoly(f, rLast) && IsPoly(f, r) && IsPoly(f, sLast) && IsPoly(f, s) && IsPoly(f, tLast) && IsPoly(f, t)
    requires IsPoly(f, q) && IsPoly(f, r2) && AddOrSubtract(Multiply(f, q, r), r2) == rLast
    requires KeyRelation(f, a, b, rLast, sLast, tLast) && KeyRelation(f, a, b, r, s, t)
    ensures KeyRelation(f, a, b, r2, NextT(f, q, s, sLast), NextT(f, q, t, tLast))
  {
    var s2, t2 := NextT(f, q, s, sLast), NextT(f, q, t, tLast);
    var sa, tb := Multiply(f, s, a), Multiply(f, t, b);
    var qsa, qtb := Multiply(f, q, sa), Multiply(f, q, tb);
    var sLa, tLb := Multiply(f, sLast, a), Multiply(f, tLast, b);
    PR.MulAddRight(f, q, sa, tb);
    PR.MulAddLeft(f, Multiply(f, q, s), sLast, a);
    PR.MulAddLeft(f, Multiply(f, q, t), tLast, b);
    PR.MultiplyAssoc(f, q, s, a);
    PR.MultiplyAssoc(f, q, t, b);
    KeyIdentity(f, a, b, r, s, t);
    KeyIdentity(f, a, b, rLast, sLast, tLast);
    var rhs := AddOrSubtract(Multiply(f, s2, a), Multiply(f, t2, b));
    forall k: nat
      ensures Coef(r2, k) == Coef(rhs, k)
    {
      KeyStepCoef(Coef(r2, k), Coef(sLa, k), Coef(tLb, k), Coef(qsa, k), Coef(qtb, k));
    }
    Extensionality(r2, rhs);
    KeyIdentity(f, a, b, r2, s2, t2);
  }

  /** Scaling r, s and t by the same constant keeps the relation. */
  lemma KeyScale(f: F.Field, a: seq<nat>, b: seq<nat>, r: seq<nat>, s: seq<nat>, t: seq<nat>, c: nat)
    requires F.Primitive(f) && F.Valid(f) && IsPoly(f, a) && IsPoly(f, b)
    requires IsPoly(f, r) && IsPoly(f, s) && IsPoly(f, t) && c < f.size
    requires KeyRelation(f, a, b, r, s, t)
    ensures KeyRelation(f, a, b, MultiplyScalar(f, r, c), MultiplyScalar(f, s, c), MultiplyScalar(f, t, c))
  {
    var sa, tb := Multiply(f, s, a), Multiply(f, t, b);
    KeyIdentity(f, a, b, r, s, t);
    PR.ScalarLeft(f, s, a, c);
    PR.ScalarLeft(f, t, b, c);
    ScalarCoefs(f, r, c);
    ScalarCoefs(f, sa, c);
    ScalarCoefs(f, tb, c);
    var lhs := MultiplyScalar(f, r, c);
    var rhs := AddOrSubtract(MultiplyScalar(f, sa, c), MultiplyScalar(f, tb, c));
    forall k: nat
      ensures Coef(lhs, k) == Coef(rhs, k)
    {
      Laws.MulDistrib(f, Coef(sa, k), Coef(tb, k), c);
    }
    Extensionality(lhs, rhs);
    KeyIdentity(f, a, b, lhs, MultiplyScalar(f, s, c), MultiplyScalar(f, t, c));
  }

  /**
   * The solver's result satisfies the key equation omega = s * a + sigma * b
   * for some polynomial s.
   */
  lemma {:induction false} EuclidKeyEquation(f: F.Field, R: nat, a: seq<nat>, b: seq<nat>, rLast: seq<nat>, r: seq<nat>,
                                             sLast: seq<nat>, s: seq<nat>, tLast: seq<nat>, t: seq<nat>)
    requires F.Primitive(f) && F.Valid(f) && IsPoly(f, a) && IsPoly(f, b)
    requires IsPoly(f, rLast) && IsPoly(f, r) && IsPoly(f, sLast) && IsPoly(f, s) && IsPoly(f, tLast) && IsPoly(f, t)
    requires KeyRelation(f, a, b, rLast, sLast, tLast) && KeyRelation(f, a, b, r, s, t)
    ensures var res := EuclidLoop(f, R, rLast, r, tLast, t);
      res.Some? ==> exists s': seq<nat> :: IsPoly(f, s') && KeyRelation(f, a, b, res.value.1, s', res.value.0)
    decreases |r|
  {
    if Degree(r) >= R / 2 {
      if !IsZero(r) {
        var qr := Divide(f, rLast, r).value;
        if Degree(qr.1) < Degree(r) {
          var t2 := NextT(f, qr.0, t, tLast);
          assert EuclidLoop(f, R, rLast, r, tLast, t) == EuclidLoop(f, R, r, qr.1, t, t2);
          KeyStep(f, a, b, rLast, r, sLast, s, tLast, t, qr.0, qr.1);
          EuclidKeyEquation(f, R, a, b, r, qr.1, s, NextT(f, qr.0, s, sLast), t, t2);
        }
      }
    } else if Coef(t, 0) != 0 {
      KeyFinish(f, R, a, b, rLast, r, s, tLast, t);
    }
  }

  /** When the loop stops, scaling by the inverse of t(0) keeps the relation. */
  lemma KeyFinish(f: F.Field, R: nat, a: seq<nat>, b: seq<nat>, rLast: seq<nat>, r: seq<nat>,
                  s: seq<nat>, tLast: seq<nat>, t: seq<nat>)
    requires F.Primitive(f) && F.Valid(f) && IsPoly(f, a) && IsPoly(f, b)
    requires IsPoly(f, rLast) && IsPoly(f, r) && IsPoly(f, s) && IsPoly(f, tLast) && IsPoly(f, t)
    requires KeyRelation(f, a, b, r, s, t)
    requires Degree(r) < R / 2 && Coef(t, 0) != 0
    ensures EuclidLoop(f, R, rLast, r, tLast, t).Some?
    ensures var res := EuclidLoop(f, R, rLast, r, tLast, t).value;
      exists s': seq<nat> :: IsPoly(f, s') && KeyRelation(f, a, b, res.1, s', res.0)
  {
    var inv := F.Inverse(f, Coef(t, 0)).value;
    Laws.InverseLaw(f, Coef(t, 0));
    KeyScale(f, a, b, r, s, t, inv);
    assert EuclidLoop(f, R, rLast, r, tLast, t) == Some((MultiplyScalar(f, t, inv), MultiplyScalar(f, r, inv)));
    assert IsPoly(f, MultiplyScalar(f, s, inv));
  }

  /**
   * runEuclideanAlgorithm returns sigma and omega with omega = s * a + sigma * b
   * as polynomials for some s (a and b taken in the order the solver uses them),
   * sigma(0) = 1 and deg omega < R / 2.
   */
  lemma RunEuclidKeyEquation(f: F.Field, a: seq<nat>, b: seq<nat>, R: nat)
    requires F.Primitive(f) && F.Valid(f) && IsPoly(f, a) && IsPoly(f, b)
    ensures var res := RunEuclid(f, a, b, R);
      var a0, b0 := if Degree(a) < Degree(b) then b else a, if Degree(a) < Degree(b) then a else b;
      res.Some? ==>
        && Coef(res.value.0, 0) == 1 && Degree(res.value.1) < R / 2
        && exists s: seq<nat> :: IsPoly(f, s) && AddOrSubtract(Multiply(f, s, a0), Multiply(f, res.value.0, b0)) == res.value.1
  {
    var a0, b0 := if Degree(a) < Degree(b) then b else a, if Degree(a) < Degree(b) then a else b;
    KeyStart(f, a0, b0);
    EuclidKeyEquation(f, R, a0, b0, a0, b0, One, Zero, Zero, One);
    var res := RunEuclid(f, a, b, R);
    if res.Some? {
      var s :| IsPoly(f, s) && KeyRelation(f, a0, b0, res.value.1, s, res.value.0);
      KeyIdentity(f, a0, b0, res.value.1, s, res.value.0);
    }
  }

  /** At the start a = 1 * a + 0 * b and b = 0 * a + 1 * b. */
  lemma KeyStart(f: F.Field, a: seq<nat>, b: seq<nat>)
    requires F.Primitive(f) && F.Valid(f) && IsPoly(f, a) && IsPoly(f, b)
    ensures IsPoly(f, Zero) && IsPoly(f, One)
    ensures KeyRelation(f, a, b, a, One, Zero) && KeyRelation(f, a, b, b, Zero, One)
  {
    PR.MultiplyUnits(f, a);
    PR.MultiplyUnits(f, b);
    PL.AddZero(a);
    PL.AddZero(b);
    KeyIdentity(f, a, b, a, One, Zero);
    KeyIdentity(f, a, b, b, Zero, One);
  }

  /** The x in [i, n) with keep(x), in increasing order. */
  function Select(keep: nat -> bool, i: nat, n: nat): (r: seq<nat>)
    ensures forall j :: 0 <= j < |r| ==> i <= r[j] < n
    decreases n - i
  {
    if i >= n then [] else (if keep(i) then [i] else []) + Select(keep, i + 1, n)
  }

  /** Select keeps exactly the x in [i, n) that pass the test. */
  lemma {:induction false} SelectMembers(keep: nat -> bool, i: nat, n: nat)
    ensures forall x: nat :: x in Select(keep, i, n) <==> i <= x < n && keep(x)
    decreases n - i
  {
    if i < n {
      SelectMembers(keep, i + 1, n);
    }
  }

  /** The selected elements come out in increasing order. */
  lemma {:induction false} SelectIncreasing(keep: nat -> bool, i: nat, n: nat)
    ensures forall j, k :: 0 <= j < k < |Select(keep, i, n)| ==> Select(keep, i, n)[j] < Select(keep, i, n)[k]
    decreases n - i
  {
    if i < n {
      SelectIncreasing(keep, i + 1, n);
      if keep(i) {
        ConsIncreasing(i, Select(keep, i + 1, n));
      }
    }
  }

  /** Putting a smaller element in front keeps a sequence increasing. */
  lemma ConsIncreasing(x: nat, xs: seq<nat>)
    requires forall j :: 0 <= j < |xs| ==> x < xs[j]
    requires forall j, k :: 0 <= j < k < |xs| ==> xs[j] < xs[k]
    ensures forall j, k :: 0 <= j < k < |[x] + xs| ==> ([x] + xs)[j] < ([x] + xs)[k]
  {
    forall j, k | 0 <= j < k < |[x] + xs|
      ensures ([x] + xs)[j] < ([x] + xs)[k]
    {
      assert ([x] + xs)[k] == xs[k - 1];
      if j > 0 {
        assert ([x] + xs)[j] == xs[j - 1];
      }
    }
  }

  /** The roots of sigma among i, i + 1, ..., size - 1, in increasing order. */
  function RootsFrom(f: F.Field, sigma: seq<nat>, i: nat): (r: seq<nat>)
    requires F.Valid(f) && IsPoly(f, sigma)
    ensures forall j :: 0 <= j < |r| ==> i <= r[j] < f.size
  {
    Select(RootTest(f, sigma), i, f.size)
  }

  /** RootsFrom holds exactly the roots of sigma from i up. */
  lemma RootsFromMembers(f: F.Field, sigma: seq<nat>, i: nat)
    requires F.Valid(f) && IsPoly(f, sigma)
    ensures forall x: nat :: x in RootsFrom(f, sigma, i) <==> i <= x < f.size && EvaluateAt(f, sigma, x) == 0
  {
    SelectMembers(RootTest(f, sigma), i, f.size);
  }

  /** The inverses of non-zero field elements, element by element. */
  function Inverses(f: F.Field, xs: seq<nat>): (r: seq<nat>)
    requires F.Valid(f) && forall j :: 0 <= j < |xs| ==> 0 < xs[j] < f.size
    ensures |r| == |xs|
  {
    seq(|xs|, j requires 0 <= j < |xs| => F.Inverse(f, xs[j]).value)
  }

  /** The first n elements, or all of them when there are fewer. */
  function Take(xs: seq<nat>, n: nat): (r: seq<nat>)
    ensures |r| == if n <= |xs| then n else |xs|
    ensures forall j :: 0 <= j < |r| ==> r[j] == xs[j]
  {
    if n <= |xs| then xs[..n] else xs
  }

  lemma TakeCons(x: nat, xs: seq<nat>, n: nat)
    requires n >= 1
    ensures Take([x] + xs, n) == [x] + Take(xs, n - 1)
  {
  }

  lemma InversesCons(f: F.Field, x: nat, xs: seq<nat>)
    requires F.Valid(f) && 0 < x < f.size && forall j :: 0 <= j < |xs| ==> 0 < xs[j] < f.size
    ensures Inverses(f, [x] + xs) == [F.Inverse(f, x).value] + Inverses(f, xs)
  {
    var l, r := Inverses(f, [x] + xs), [F.Inverse(f, x).value] + Inverses(f, xs);
    forall j | 0 <= j < |l|
      ensures l[j] == r[j]
    {
      if j > 0 {
        assert ([x] + xs)[j] == xs[j - 1];
      }
    }
  }

  /** The values val(x) of the first n elements x of [i, m) that pass the test, in order. */
  function ScanGen(keep: nat -> bool, val: nat -> nat, i: nat, m: nat, n: nat): seq<nat>
    decreases m - i
  {
    if i >= m || n == 0 then []
    else if keep(i) then [val(i)] + ScanGen(keep, val, i + 1, m, n - 1)
    else ScanGen(keep, val, i + 1, m, n)
  }

  /** val applied to every element. */
  function MapSeq(val: nat -> nat, xs: seq<nat>): (r: seq<nat>)
    ensures |r| == |xs|
  {
    seq(|xs|, j requires 0 <= j < |xs| => val(xs[j]))
  }

  /** Scanning for the first n passing elements is selecting all of them, taking n, and mapping. */
  lemma {:induction false} ScanGenSelect(keep: nat -> bool, val: nat -> nat, i: nat, m: nat, n: nat)
    ensures ScanGen(keep, val, i, m, n) == MapSeq(val, Take(Select(keep, i, m), n))
    decreases m - i
  {
    if i < m && n > 0 {
      var rest := Select(keep, i + 1, m);
      if keep(i) {
        ScanGenSelect(keep, val, i + 1, m, n - 1);
        assert Select(keep, i, m) == [i] + rest;
        MapTakeCons(val, i, rest, n, ScanGen(keep, val, i + 1, m, n - 1));
      } else {
        ScanGenSelect(keep, val, i + 1, m, n);
        assert Select(keep, i, m) == rest;
      }
    } else {
      MapTakeNone(val, Select(keep, i, m), n);
    }
  }

  /** Taking n from x :: rest and mapping is val(x) followed by the same for n - 1 from rest. */
  lemma MapTakeCons(val: nat -> nat, x: nat, rest: seq<nat>, n: nat, tail: seq<nat>)
    requires n >= 1 && tail == MapSeq(val, Take(rest, n - 1))
    ensures [val(x)] + tail == MapSeq(val, Take([x] + rest, n))
  {
    TakeCons(x, rest, n);
    assert MapSeq(val, [x] + Take(rest, n - 1)) == [val(x)] + tail;
  }

  /** Taking nothing, or from nothing, maps to nothing. */
  lemma MapTakeNone(val: nat -> nat, xs: seq<nat>, n: nat)
    requires n == 0 || xs == []
    ensures MapSeq(val, Take(xs, n)) == []
  {
  }

  /** On non-zero elements, Inverses is the map of InverseOf. */
  lemma InversesMap(f: F.Field, xs: seq<nat>)
    requires F.Valid(f) && forall j :: 0 <= j < |xs| ==> 0 < xs[j] < f.size
    ensures Inverses(f, xs) == MapSeq(InverseOf(f), xs)
  {
  }

  lemma AppendCons(xs: seq<nat>, v: nat, ys: seq<nat>)
    ensures xs + [v] + ys == xs + ([v] + ys)
  {
  }

  /** The loop appends to what it has found the next passing values it still needs. */
  lemma {:induction false} ScanLoopGen(keep: nat -> bool, val: nat -> nat, i: nat, m: nat, need: nat, found: seq<nat>)
    requires |found| <= need
    ensures ScanLoop(keep, val, i, m, need, found) == found + ScanGen(keep, val, i, m, need - |found|)
    decreases m - i
  {
    if i < m && |found| < need {
      if keep(i) {
        ScanLoopGen(keep, val, i + 1, m, need, found + [val(i)]);
        AppendCons(found, val(i), ScanGen(keep, val, i + 1, m, need - |found| - 1));
      } else {
        ScanLoopGen(keep, val, i + 1, m, need, found);
      }
    }
  }

  /** The scan appends the inverses of the first roots of sigma, as many as are still needed. */
  lemma ChienScanRoots(f: F.Field, sigma: seq<nat>, i: nat, need: nat, found: seq<nat>)
    requires F.Valid(f) && IsPoly(f, sigma) && i >= 1 && |found| <= need
    ensures ChienScan(f, sigma, i, need, found) == found + Inverses(f, Take(RootsFrom(f, sigma, i), need - |found|))
  {
    ScanLoopGen(RootTest(f, sigma), InverseOf(f), i, f.size, need, found);
    ScanGenSelect(RootTest(f, sigma), InverseOf(f), i, f.size, need - |found|);
    InversesMap(f, Take(RootsFrom(f, sigma, i), need - |found|));
  }

  /**
   * findErrorLocations, stated through the roots of sigma: the degree-1
   * short cut, or the inverses of the first deg sigma roots in 1 .. size-1
   * when there are that many, and None otherwise.
   */
  lemma FindErrorLocationsRoots(f: F.Field, sigma: seq<nat>)
    requires F.Valid(f) && IsPoly(f, sigma)
    ensures FindErrorLocations(f, sigma) ==
      if Degree(sigma) == 1 then Some([Coef(sigma, 1)])
      else if |RootsFrom(f, sigma, 1)| < Degree(sigma) then None
      else Some(Inverses(f, RootsFrom(f, sigma, 1)[..Degree(sigma)]))
  {
    var n := Degree(sigma);
    if n != 1 {
      var roots := RootsFrom(f, sigma, 1);
      ChienScanRoots(f, sigma, 1, n, []);
      assert ChienScan(f, sigma, 1, n, []) == Inverses(f, Take(roots, n));
      if n <= |roots| {
        assert Take(roots, n) == roots[..n];
      }
    }
  }

  /** Horner's scheme on a polynomial of degree at most 1: c1 * x + c0. */
  lemma HornerLinear(f: F.Field, c1: nat, c0: nat, x: nat)
    requires F.Valid(f) && c1 < f.size && c0 < f.size && x < f.size
    ensures Horner(f, [c1, c0], x) == Xor(F.Multiply(f, x, c1), c0)
  {
    assert [c1, c0][..1] == [c1] && [c1][..0] == [];
    assert Horner(f, [c1], x) == c1 by {
      XorZero(c1);
    }
  }

  /** The degree-1 short cut returns the inverse of the locator's root, as the scan would. */
  lemma DegreeOneLocation(f: F.Field, sigma: seq<nat>)
    requires F.Primitive(f) && F.Valid(f) && IsPoly(f, sigma) && Degree(sigma) == 1 && Coef(sigma, 0) == 1
    ensures 0 < Coef(sigma, 1) < f.size && F.Inverse(f, Coef(sigma, 1)).Success?
    ensures Horner(f, sigma, F.Inverse(f, Coef(sigma, 1)).value) == 0
  {
    var c1 := sigma[0];
    assert sigma == [c1, 1];
    Laws.InverseLaw(f, c1);
    var v := F.Inverse(f, c1).value;
    HornerLinear(f, c1, 1, v);
    Laws.MulComm(f, v, c1);
    XorSelf(1);
  }

  /** Distinct non-zero elements have distinct inverses. */
  lemma InverseInjective(f: F.Field, a: nat, b: nat)
    requires F.Primitive(f) && F.Valid(f) && 0 < a < f.size && 0 < b < f.size && a != b
    ensures F.Inverse(f, a).Success? && F.Inverse(f, b).Success?
    ensures F.Inverse(f, a).value != F.Inverse(f, b).value
  {
    Laws.InverseLaw(f, a);
    Laws.InverseLaw(f, b);
    var v := F.Inverse(f, a).value;
    if F.Inverse(f, b).value == v {
      InverseUnique(f, b, a);
    }
  }

  /** a * (1/b) == 1 only when a == b. */
  lemma InverseUnique(f: F.Field, a: nat, b: nat)
    requires F.Primitive(f) && F.Valid(f) && 0 < a < f.size && 0 < b < f.size
    requires F.Inverse(f, b).Success? && F.Multiply(f, a, F.Inverse(f, b).value) == 1
    ensures a == b
  {
    Laws.InverseLaw(f, b);
    var v := F.Inverse(f, b).value;
    calc {
      a;
      { Laws.MulOne(f, a); }
      F.Multiply(f, a, 1);
      { Laws.MulComm(f, b, v); }
      F.Multiply(f, a, F.Multiply(f, v, b));
      { Laws.MulAssoc(f, a, v, b); }
      F.Multiply(f, F.Multiply(f, a, v), b);
      { Laws.MulOne(f, b); }
      b;
    }
  }

  /** The locations found are non-zero and pairwise distinct. */
  lemma LocationsDistinct(f: F.Field, sigma: seq<nat>)
    requires F.Primitive(f) && F.Valid(f) && IsPoly(f, sigma) && FindErrorLocations(f, sigma).Some?
    ensures forall j :: 0 <= j < |FindErrorLocations(f, sigma).value| ==> 0 < FindErrorLocations(f, sigma).value[j] < f.size
    ensures forall j, k :: 0 <= j < k < |FindErrorLocations(f, sigma).value| ==>
      FindErrorLocations(f, sigma).value[j] != FindErrorLocations(f, sigma).value[k]
  {
    FindErrorLocationsRoots(f, sigma);
    var locs := FindErrorLocations(f, sigma).value;
    if Degree(sigma) == 1 {
      assert locs == [sigma[0]];
    } else {
      var roots := RootsFrom(f, sigma, 1);
      var n := Degree(sigma);
      assert locs == Inverses(f, roots[..n]);
      forall j | 0 <= j < |locs|
        ensures 0 < locs[j] < f.size
      {
        assert roots[j] in roots;
        Laws.InverseLaw(f, roots[j]);
      }
      SelectIncreasing(RootTest(f, sigma), 1, f.size);
      forall j, k | 0 <= j < k < |locs|
        ensures locs[j] != locs[k]
      {
        assert roots[j] in roots && roots[k] in roots;
        InverseInjective(f, roots[j], roots[k]);
      }
    }
  }

  /** With distinct non-zero locations every factor 1 + X_j / X_i is non-zero, and so is the product. */
  lemma DenominatorNonZero(f: F.Field, locs: seq<nat>, i: nat, n: nat)
    requires F.Primitive(f) && F.Valid(f) && InField(f, locs) && i < |locs| && n <= |locs|
    requires forall j :: 0 <= j < |locs| ==> locs[j] != 0
    requires forall j, k :: 0 <= j < k < |locs| ==> locs[j] != locs[k]
    ensures F.Inverse(f, locs[i]).Success?
    ensures Denominator(f, locs, i, F.Inverse(f, locs[i]).value, n) != 0
  {
    Laws.InverseLaw(f, locs[i]);
    var xiInv := F.Inverse(f, locs[i]).value;
    forall a: nat, b: nat | 0 < a < f.size && 0 < b < f.size
      ensures F.Multiply(f, a, b) != 0
    {
      Laws.MulNonZero(f, a, b);
    }
    forall j | 0 <= j < n && j != i
      ensures Xor(F.Multiply(f, locs[j], xiInv), 1) != 0
    {
      assert locs[j] != locs[i] by {
        if j < i {
          assert locs[j] != locs[i];
        } else {
          assert locs[i] != locs[j];
        }
      }
      FactorNonZero(f, locs[j], locs[i]);
    }
    ProductNonZero(f, locs, i, xiInv, n);
  }

  /** In a field without zero divisors, a product of non-zero factors is non-zero. */
  lemma {:induction false} ProductNonZero(f: F.Field, locs: seq<nat>, i: nat, xiInv: nat, n: nat)
    requires F.Valid(f) && InField(f, locs) && n <= |locs| && xiInv < f.size
    requires forall a: nat, b: nat :: 0 < a < f.size && 0 < b < f.size ==> F.Multiply(f, a, b) != 0
    requires forall j :: 0 <= j < n && j != i ==> Xor(F.Multiply(f, locs[j], xiInv), 1) != 0
    ensures Denominator(f, locs, i, xiInv, n) != 0
  {
    if n > 0 {
      ProductNonZero(f, locs, i, xiInv, n - 1);
      var d := Denominator(f, locs, i, xiInv, n - 1);
      if n - 1 != i {
        var term := F.Multiply(f, locs[n - 1], xiInv);
        XorBound(term, 1, Log2(f.size));
        assert Denominator(f, locs, i, xiInv, n) == F.Multiply(f, d, Xor(term, 1));
      } else {
        assert Denominator(f, locs, i, xiInv, n) == d;
      }
    }
  }

  /** The factor 1 + a / b of Forney's denominator is non-zero for distinct non-zero a and b. */
  lemma FactorNonZero(f: F.Field, a: nat, b: nat)
    requires F.Primitive(f) && F.Valid(f) && 0 < a < f.size && 0 < b < f.size && a != b
    ensures F.Inverse(f, b).Success? && F.Inverse(f, b).value < f.size
    ensures 0 < Xor(F.Multiply(f, a, F.Inverse(f, b).value), 1) < f.size
  {
    Laws.InverseLaw(f, b);
    var term := F.Multiply(f, a, F.Inverse(f, b).value);
    if Xor(term, 1) == 0 {
      XorZeroEq(term, 1);
      InverseUnique(f, a, b);
    }
    XorBound(term, 1, Log2(f.size));
  }

  /** Forney's formula throws nothing for distinct non-zero locations: one magnitude per location. */
  lemma MagnitudesSucceed(f: F.Field, omega: seq<nat>, locs: seq<nat>, n: nat)
    requires F.Primitive(f) && F.Valid(f) && IsPoly(f, omega) && InField(f, locs) && n <= |locs|
    requires forall j :: 0 <= j < |locs| ==> locs[j] != 0
    requires forall j, k :: 0 <= j < k < |locs| ==> locs[j] != locs[k]
    ensures Magnitudes(f, omega, locs, n).Success?
  {
    forall i | 0 <= i < n
      ensures Magnitude(f, omega, locs, i).Success?
    {
      MagnitudeSucceeds(f, omega, locs, i);
    }
    MagnitudesAll(f, omega, locs, n);
  }

  /** Magnitudes succeeds when every single magnitude does. */
  lemma {:induction false} MagnitudesAll(f: F.Field, omega: seq<nat>, locs: seq<nat>, n: nat)
    requires F.Valid(f) && IsPoly(f, omega) && InField(f, locs) && n <= |locs|
    requires forall i :: 0 <= i < n ==> Magnitude(f, omega, locs, i).Success?
    ensures Magnitudes(f, omega, locs, n).Success?
  {
    if n > 0 {
      MagnitudesAll(f, omega, locs, n - 1);
    }
  }

  /** Forney's formula for one location of a distinct non-zero set throws nothing. */
  lemma MagnitudeSucceeds(f: F.Field, omega: seq<nat>, locs: seq<nat>, i: nat)
    requires F.Primitive(f) && F.Valid(f) && IsPoly(f, omega) && InField(f, locs) && i < |locs|
    requires forall j :: 0 <= j < |locs| ==> locs[j] != 0
    requires forall j, k :: 0 <= j < k < |locs| ==> locs[j] != locs[k]
    ensures Magnitude(f, omega, locs, i).Success?
  {
    DenominatorNonZero(f, locs, i, |locs|);
  }

  /** The XOR of the magnitudes of the first n locations that name position p. */
  function Flips(f: F.Field, len: int, locs: seq<nat>, mags: seq<nat>, n: nat, p: int): nat
    requires F.Valid(f) && InField(f, locs) && |mags| == |locs| && n <= |locs|
  {
    if n == 0 then 0
    else Xor(Flips(f, len, locs, mags, n - 1, p), if len - 1 - f.logTable[locs[n - 1]] == p then mags[n - 1] else 0)
  }

  /**
   * With non-zero locations the corrections throw nothing; they give up
   * exactly when some location names a negative position, and otherwise each
   * symbol is XOR-ed with the magnitudes of the locations naming it.
   */
  lemma {:induction false} CorrectOutcome(f: F.Field, received: seq<nat>, locs: seq<nat>, mags: seq<nat>, n: nat)
    requires F.Valid(f) && InField(f, received) && InField(f, mags) && InField(f, locs)
    requires |mags| == |locs| && n <= |locs|
    requires forall j :: 0 <= j < |locs| ==> locs[j] != 0
    ensures Correct(f, received, locs, mags, n).Success?
    ensures Correct(f, received, locs, mags, n).value.Some? <==>
      forall k :: 0 <= k < n ==> f.logTable[locs[k]] < |received|
    ensures Correct(f, received, locs, mags, n).value.Some? ==>
      forall p :: 0 <= p < |received| ==>
        Correct(f, received, locs, mags, n).value.value[p] == Xor(received[p], Flips(f, |received|, locs, mags, n, p))
  {
    if n == 0 {
      forall p | 0 <= p < |received|
        ensures received[p] == Xor(received[p], 0)
      {
        XorZero(received[p]);
      }
    } else {
      CorrectOutcome(f, received, locs, mags, n - 1);
      CorrectStep(f, received, locs, mags, n);
    }
  }

  /** One correction, given the outcome of the ones before it. */
  lemma CorrectStep(f: F.Field, received: seq<nat>, locs: seq<nat>, mags: seq<nat>, n: nat)
    requires F.Valid(f) && InField(f, received) && InField(f, mags) && InField(f, locs)
    requires |mags| == |locs| && 0 < n <= |locs|
    requires forall j :: 0 <= j < |locs| ==> locs[j] != 0
    requires Correct(f, received, locs, mags, n - 1).Success?
    requires Correct(f, received, locs, mags, n - 1).value.Some? <==>
      forall k :: 0 <= k < n - 1 ==> f.logTable[locs[k]] < |received|
    requires Correct(f, received, locs, mags, n - 1).value.Some? ==>
      forall p :: 0 <= p < |received| ==>
        Correct(f, received, locs, mags, n - 1).value.value[p] == Xor(received[p], Flips(f, |received|, locs, mags, n - 1, p))
    ensures Correct(f, received, locs, mags, n).Success?
    ensures Correct(f, received, locs, mags, n).value.Some? <==>
      forall k :: 0 <= k < n ==> f.logTable[locs[k]] < |received|
    ensures Correct(f, received, locs, mags, n).value.Some? ==>
      forall p :: 0 <= p < |received| ==>
        Correct(f, received, locs, mags, n).value.value[p] == Xor(received[p], Flips(f, |received|, locs, mags, n, p))
  {
    var prev := Correct(f, received, locs, mags, n - 1).value;
    if prev.Some? {
      var lg := f.logTable[locs[n - 1]];
      var position := |received| - 1 - lg;
      if position >= 0 {
        var out := prev.value;
        var m := mags[n - 1];
        forall p | 0 <= p < |received|
          ensures out[position := Xor(out[position], m)][p] == Xor(received[p], Flips(f, |received|, locs, mags, n, p))
        {
          var fl := Flips(f, |received|, locs, mags, n - 1, p);
          if p == position {
            XorAssoc(received[p], fl, m);
          } else {
            XorZero(fl);
          }
        }
      }
    }
  }

  /** Positions no location names keep their symbol. */
  lemma {:induction false} FlipsElsewhere(f: F.Field, len: int, locs: seq<nat>, mags: seq<nat>, n: nat, p: int)
    requires F.Valid(f) && InField(f, locs) && |mags| == |locs| && n <= |locs|
    requires forall k :: 0 <= k < n ==> len - 1 - f.logTable[locs[k]] != p
    ensures Flips(f, len, locs, mags, n, p) == 0
  {
    if n > 0 {
      FlipsElsewhere(f, len, locs, mags, n - 1, p);
      XorZero(0);
    }
  }

  /** The syndromes of a word all vanish exactly when the word is a codeword. */
  lemma SyndromesZeroIffCodeword(f: F.Field, w: seq<nat>, n: nat)
    requires F.Primitive(f) && F.Valid(f) && |w| >= 1 && InField(f, w)
    requires n == 0 || (0 <= f.generatorBase && n - 1 + f.generatorBase < f.size)
    ensures IsPoly(f, Normalize(w)) && Syndromes(f, Normalize(w), n).Success?
    ensures (forall i :: 0 <= i < n ==> Syndromes(f, Normalize(w), n).value[i] == 0) <==> Codeword(f, n, w)
  {
    NormalizeInField(f, w);
    ValuesZeroIffCodeword(f, w, n, Syndromes(f, Normalize(w), n).value);
  }

  /** Evaluating the normalized word gives the word's own Horner value. */
  lemma EvaluateNormalized(f: F.Field, w: seq<nat>, x: nat)
    requires F.Primitive(f) && F.Valid(f) && |w| >= 1 && InField(f, w) && x < f.size
    ensures IsPoly(f, Normalize(w)) && EvaluateAt(f, Normalize(w), x) == Horner(f, w, x)
  {
    NormalizeInField(f, w);
    EvaluateAtHorner(f, Normalize(w), x);
    PL.HornerByCoefs(f, Normalize(w), w, x);
  }

  /** Values at the generator roots all vanish exactly when the word is a codeword. */
  lemma ValuesZeroIffCodeword(f: F.Field, w: seq<nat>, n: nat, s: seq<nat>)
    requires F.Primitive(f) && F.Valid(f) && |w| >= 1 && InField(f, w) && IsPoly(f, Normalize(w)) && |s| == n
    requires n == 0 || (0 <= f.generatorBase && n - 1 + f.generatorBase < f.size)
    requires forall i :: 0 <= i < n ==> s[i] == EvaluateAt(f, Normalize(w), f.expTable[i + f.generatorBase])
    ensures (forall i :: 0 <= i < n ==> s[i] == 0) <==> Codeword(f, n, w)
  {
    if forall i :: 0 <= i < n ==> s[i] == 0 {
      forall x: nat | x < f.size && IsRoot(f, n, x)
        ensures Horner(f, w, x) == 0
      {
        var j :| f.generatorBase <= j < f.generatorBase + n && 0 <= j < |f.expTable| && x == f.expTable[j];
        assert s[j - f.generatorBase] == 0;
        EvaluateNormalized(f, w, x);
      }
    }
    if Codeword(f, n, w) {
      forall i | 0 <= i < n
        ensures s[i] == 0
      {
        var x := f.expTable[i + f.generatorBase];
        assert IsRoot(f, n, x);
        EvaluateNormalized(f, w, x);
      }
    }
  }

  /** A codeword decodes to itself, untouched. */
  lemma DecodeCodeword(c: Coder, received: seq<nat>)
    requires CoderValid(c) && InField(c.field, received) && |received| >= 1 && c.ecSize >= 0
    requires c.ecSize == 0 || (0 <= c.field.generatorBase && c.ecSize - 1 + c.field.generatorBase < c.field.size)
    requires Codeword(c.field, c.ecSize, received)
    ensures DecodeBlock(c, received) == Success(Some(received))
  {
    SyndromesZeroIffCodeword(c.field, received, c.ecSize);
  }

  /**
   * decode(int[]) throws exactly when the block is empty, the parity count is
   * negative, or a syndrome exponent runs past the exp table; the solver, the
   * search, Forney's formula and the corrections never throw.
   */
  lemma DecodeBlockFails(c: Coder, received: seq<nat>)
    requires CoderValid(c) && InField(c.field, received)
    ensures DecodeBlock(c, received).Failure? <==>
      |received| == 0 || c.ecSize < 0
      || !(c.ecSize == 0 || (0 <= c.field.generatorBase && c.ecSize - 1 + c.field.generatorBase < c.field.size))
  {
    var f, e := c.field, c.ecSize;
    if |received| > 0 && e >= 0 {
      NormalizeInField(f, received);
      var s := Syndromes(f, Normalize(received), e);
      if s.Success? && e > 0 {
        LocateAndCorrectSucceeds(f, received, s.value);
      }
    }
  }

  /** The steps after a non-zero syndrome throw nothing. */
  lemma LocateAndCorrectSucceeds(f: F.Field, received: seq<nat>, s: seq<nat>)
    requires F.Valid(f) && F.Primitive(f) && InField(f, received) && |s| >= 1 && InField(f, s)
    ensures LocateAndCorrect(f, received, s).Success?
  {
    var e := |s|;
    NormalizeInField(f, SyndromeArray(s));
    MonomialInField(f, e, 1);
    var so := RunEuclid(f, Monomial(e, 1), Normalize(SyndromeArray(s)), e);
    if so.Some? && FindErrorLocations(f, so.value.0).Some? {
      CorrectionsSucceed(f, received, so.value.0, so.value.1);
    }
  }

  /** Once the search has found locations, Forney's formula and the corrections throw nothing. */
  lemma CorrectionsSucceed(f: F.Field, received: seq<nat>, sigma: seq<nat>, omega: seq<nat>)
    requires F.Primitive(f) && F.Valid(f) && InField(f, received) && IsPoly(f, sigma) && IsPoly(f, omega)
    requires FindErrorLocations(f, sigma).Some?
    ensures FindErrorMagnitudes(f, omega, FindErrorLocations(f, sigma).value).Success?
    ensures Correct(f, received, FindErrorLocations(f, sigma).value,
      FindErrorMagnitudes(f, omega, FindErrorLocations(f, sigma).value).value,
      |FindErrorLocations(f, sigma).value|).Success?
  {
    var locs := FindErrorLocations(f, sigma).value;
    LocationsDistinct(f, sigma);
    MagnitudesSucceed(f, omega, locs, |locs|);
    CorrectOutcome(f, received, locs, FindErrorMagnitudes(f, omega, locs).value, |locs|);
  }
}
