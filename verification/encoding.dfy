/**
 * Systematic block encoding: a block keeps its data symbols and gets as parity
 * the remainder of data * x^e divided by the generator of degree e, so that the
 * whole block, read as a polynomial, is a multiple of the generator.
 */
module Encoding {
  import opened Bits
  import opened Results
  import F = GaloisField
  import Laws = FieldLaws
  import opened GaloisFieldPoly
  import PL = PolyLaws
  import opened ReedSolomon

  /**
   * The remainder of data * x^e divided by g: the data becomes a polynomial
   * (the constructor succeeds on non-empty data), is shifted up by e (the
   * monomial product succeeds for the positive degree e), and is divided by g.
   */
  function Remainder(f: F.Field, data: seq<nat>, e: nat, g: seq<nat>): (r: Result<seq<nat>>)
    requires F.Valid(f) && F.Primitive(f) && IsPoly(f, g) && |data| >= 1 && InField(f, data)
  {
    NormalizeInField(f, data);
    var qr :- Divide(f, MulMono(f, Normalize(data), e, 1), g);
    Success(qr.1)
  }

  /**
   * encode(int[]): the last e symbols of the block are replaced by the parity
   * computed with the generator of degree e, which the coder's cache provides.
   */
  function EncodeBlock(c: Coder, block: seq<nat>): (r: Result<(Coder, seq<nat>)>)
    requires CoderValid(c) && InField(c.field, block)
    ensures r.Success? ==> |r.value.1| == |block|
    ensures r.Success? ==> r.value.0 == c.(generators := r.value.0.generators) && CacheConsistent(c.field, r.value.0.generators)
  {
    var e := c.ecSize;
    if e <= 0 then Failure(ArgumentError)
    else
      var dataBytes := |block| - e;
      if dataBytes <= 0 then Failure(ArgumentError)
      else
        var built :- BuildGenerator(c.field, c.generators, e);
        var out :- PlaceParity(c.field, block, e, built.1);
        Success((c.(generators := built.0), out))
  }

  /**
   * The parity step of encode(int[]): the remainder of the data times x^e by g
   * is written right-aligned at the end of the block whatever its length, and
   * the copy throws when it does not fit; ParityIsMultiple shows that a
   * remainder never needs more than e symbols.
   */
  function PlaceParity(f: F.Field, block: seq<nat>, e: nat, g: seq<nat>): (r: Result<seq<nat>>)
    requires F.Valid(f) && F.Primitive(f) && IsPoly(f, g) && 1 <= e < |block| && InField(f, block)
    ensures r.Success? ==> |r.value| == |block|
  {
    var data := block[..|block| - e];
    var rem :- Remainder(f, data, e, g);
    if |rem| <= e then Success(data + PL.Pad(rem, e))
    else if |rem| <= |block| then Success(block[..|block| - |rem|] + rem)
    else Failure(ArgumentError)
  }

  /** Coefficients of a concatenation: the low powers come from the tail. */
  lemma CoefAppend(a: seq<nat>, b: seq<nat>, i: nat)
    ensures Coef(a + b, i) == if i < |b| then Coef(b, i) else Coef(a, i - |b|)
  {
  }

  /** One coefficient of the parity computation, from the two facts about x^i it uses. */
  lemma ParityCoef(data: seq<nat>, shifted: seq<nat>, qg: seq<nat>, rem: seq<nat>, e: nat, i: nat)
    requires |rem| <= e
    requires Coef(shifted, i) == Xor(Coef(qg, i), Coef(rem, i))
    requires Coef(shifted, i) == if i < e then 0 else Coef(data, i - e)
    ensures Coef(data + PL.Pad(rem, e), i) == Coef(qg, i)
  {
    CoefAppend(data, PL.Pad(rem, e), i);
    XorCancel(Coef(qg, i), Coef(rem, i));
    if i < e {
      XorZero(Coef(rem, i));
    } else {
      XorZero(Coef(data, i - e));
    }
  }

  /** data * x^e has no coefficients below x^e and the data's coefficients from there on. */
  lemma ShiftedCoefs(f: F.Field, data: seq<nat>, e: nat)
    requires F.Valid(f) && F.Primitive(f) && |data| >= 1 && InField(f, data)
    ensures IsPoly(f, Normalize(data)) && IsPoly(f, MulMono(f, Normalize(data), e, 1))
    ensures forall i: nat :: Coef(MulMono(f, Normalize(data), e, 1), i) == if i < e then 0 else Coef(data, i - e)
  {
    var info := Normalize(data);
    NormalizeInField(f, data);
    forall i: nat
      ensures Coef(MulMono(f, info, e, 1), i) == if i < e then 0 else Coef(data, i - e)
    {
      if i >= e {
        Laws.MulOne(f, Coef(info, i - e));
      }
    }
  }

  /** Data followed by the remainder of data * x^e has the coefficients of quotient * divisor. */
  lemma ParityFromCoefs(data: seq<nat>, shifted: seq<nat>, qg: seq<nat>, rem: seq<nat>, e: nat)
    requires Normalized(qg) && Normalized(rem) && |rem| <= e
    requires AddOrSubtract(qg, rem) == shifted
    requires forall i: nat :: Coef(shifted, i) == if i < e then 0 else Coef(data, i - e)
    ensures forall i: nat :: Coef(data + PL.Pad(rem, e), i) == Coef(qg, i)
  {
    forall i: nat
      ensures Coef(data + PL.Pad(rem, e), i) == Coef(qg, i)
    {
      ParityCoef(data, shifted, qg, rem, e, i);
    }
  }

  /**
   * The parity computation: dividing data * x^e by a polynomial of degree e
   * leaves a remainder of at most e symbols, and the data followed by that
   * remainder has the coefficients of quotient * divisor.
   */
  lemma ParityIsMultiple(f: F.Field, g: seq<nat>, data: seq<nat>, e: nat)
    requires F.Valid(f) && F.Primitive(f) && IsPoly(f, g) && !IsZero(g) && Degree(g) == e
    requires e >= 1 && |data| >= 1 && InField(f, data)
    ensures IsPoly(f, Normalize(data)) && IsPoly(f, MulMono(f, Normalize(data), e, 1))
    ensures var d := Divide(f, MulMono(f, Normalize(data), e, 1), g);
      && d.Success?
      && |d.value.1| <= e
      && forall i: nat :: Coef(data + PL.Pad(d.value.1, e), i) == Coef(Multiply(f, d.value.0, g), i)
    ensures Remainder(f, data, e, g) == Success(Divide(f, MulMono(f, Normalize(data), e, 1), g).value.1)
  {
    ShiftedCoefs(f, data, e);
    var shifted := MulMono(f, Normalize(data), e, 1);
    var d := Divide(f, shifted, g);
    ParityFromCoefs(data, shifted, Multiply(f, d.value.0, g), d.value.1, e);
  }

  /**
   * encode(int[]) fails exactly when the parity count is not positive, no data
   * symbol is left, or the generator's roots run past the exp table.
   */
  lemma EncodeBlockFails(c: Coder, block: seq<nat>)
    requires CoderValid(c) && InField(c.field, block)
    ensures EncodeBlock(c, block).Failure? <==>
      c.ecSize <= 0 || |block| <= c.ecSize || Generator(c.field, c.ecSize).Failure?
  {
    var f, e := c.field, c.ecSize;
    if e > 0 && |block| > e && Generator(f, e).Success? {
      var g := BuildGenerator(f, c.generators, e).value.1;
      GeneratorMonic(f, e);
      ParityIsMultiple(f, g, block[..|block| - e], e);
    }
  }

  /** The parity symbols of data for a divisor g of degree e: (data * x^e) mod g, left-padded to e symbols. */
  function Parity(f: F.Field, g: seq<nat>, data: seq<nat>, e: nat): (r: seq<nat>)
    requires F.Valid(f) && F.Primitive(f) && IsPoly(f, g) && !IsZero(g) && Degree(g) == e
    requires e >= 1 && |data| >= 1 && InField(f, data)
    ensures |r| == e
  {
    ParityIsMultiple(f, g, data, e);
    PL.Pad(Remainder(f, data, e, g).value, e)
  }

  /** An array with the coefficients of a multiple of g vanishes wherever g does. */
  lemma MultipleRoots(f: F.Field, q: seq<nat>, g: seq<nat>, out: seq<nat>, x: nat)
    requires F.Valid(f) && F.Primitive(f) && IsPoly(f, q) && IsPoly(f, g) && InField(f, out) && x < f.size
    requires forall i: nat :: Coef(out, i) == Coef(Multiply(f, q, g), i)
    requires Horner(f, g, x) == 0
    ensures Horner(f, out, x) == 0
  {
    PL.HornerByCoefs(f, out, Multiply(f, q, g), x);
    PL.HornerMultiply(f, q, g, x);
  }

  /** A successful encoding built the generator and placed the parity it gives. */
  lemma EncodeBlockSteps(c: Coder, block: seq<nat>)
    requires CoderValid(c) && InField(c.field, block) && EncodeBlock(c, block).Success?
    ensures c.ecSize >= 1 && |block| > c.ecSize && BuildGenerator(c.field, c.generators, c.ecSize).Success?
    ensures IsPoly(c.field, BuildGenerator(c.field, c.generators, c.ecSize).value.1)
    ensures PlaceParity(c.field, block, c.ecSize, BuildGenerator(c.field, c.generators, c.ecSize).value.1)
      == Success(EncodeBlock(c, block).value.1)
  {
  }

  /**
   * The parity region of an encoded block is (data * x^e) mod g for the
   * generator g of degree e, left-padded with zeros to exactly e symbols.
   */
  lemma EncodeBlockParity(c: Coder, block: seq<nat>)
    requires CoderValid(c) && InField(c.field, block) && EncodeBlock(c, block).Success?
    ensures c.ecSize >= 1 && |block| > c.ecSize && Generator(c.field, c.ecSize).Success?
    ensures var g := Generator(c.field, c.ecSize).value;
      IsPoly(c.field, g) && !IsZero(g) && Degree(g) == c.ecSize
    ensures var e := c.ecSize;
      var data := block[..|block| - e];
      EncodeBlock(c, block).value.1 == data + Parity(c.field, Generator(c.field, e).value, data, e)
  {
    EncodeBlockSteps(c, block);
    var f, e := c.field, c.ecSize;
    var g := BuildGenerator(f, c.generators, e).value.1;
    assert g == Generator(f, e).value;
    GeneratorMonic(f, e);
    var data := block[..|block| - e];
    ParityIsMultiple(f, g, data, e);
    assert PlaceParity(f, block, e, g) == Success(data + Parity(f, g, data, e));
  }

  /** Encoding a block grows the coder's cache, keeps it consistent, and changes nothing else. */
  lemma EncodeBlockCoder(c: Coder, block: seq<nat>)
    requires CoderValid(c) && InField(c.field, block) && EncodeBlock(c, block).Success?
    ensures var next := EncodeBlock(c, block).value.0;
      next == c.(generators := next.generators) && c.generators <= next.generators && CoderValid(next)
  {
    var built := BuildGenerator(c.field, c.generators, c.ecSize).value;
    assert EncodeBlock(c, block).value.0 == c.(generators := built.0);
  }

  /** An encoded block keeps its data symbols and holds field elements only. */
  lemma EncodeBlockData(c: Coder, block: seq<nat>)
    requires CoderValid(c) && InField(c.field, block) && EncodeBlock(c, block).Success?
    ensures |block| > c.ecSize >= 1
    ensures EncodeBlock(c, block).value.1[..|block| - c.ecSize] == block[..|block| - c.ecSize]
    ensures InField(c.field, EncodeBlock(c, block).value.1)
    ensures |block| == c.blockSize + c.ecSize ==>
      EncodeBlock(c, block).value.1[..c.blockSize] == block[..c.blockSize]
  {
    EncodeBlockParity(c, block);
    var f, e := c.field, c.ecSize;
    var g := Generator(f, e).value;
    var data := block[..|block| - e];
    ParityIsMultiple(f, g, data, e);
    PL.PadInField(f, Divide(f, MulMono(f, Normalize(data), e, 1), g).value.1, e);
    var out := data + Parity(f, g, data, e);
    assert out[..|data|] == data;
    assert EncodeBlock(c, block).value.1 == out;
  }

  /** Data followed by its parity for a divisor g vanishes wherever g does. */
  lemma ParityRoots(f: F.Field, g: seq<nat>, data: seq<nat>, e: nat, x: nat)
    requires F.Valid(f) && F.Primitive(f) && IsPoly(f, g) && !IsZero(g) && Degree(g) == e
    requires e >= 1 && |data| >= 1 && InField(f, data) && x < f.size && Horner(f, g, x) == 0
    ensures InField(f, data + Parity(f, g, data, e))
    ensures Horner(f, data + Parity(f, g, data, e), x) == 0
  {
    ParityIsMultiple(f, g, data, e);
    var d := Divide(f, MulMono(f, Normalize(data), e, 1), g);
    var out := data + PL.Pad(d.value.1, e);
    PL.PadInField(f, d.value.1, e);
    MultipleRoots(f, d.value.0, g, out, x);
    assert data + Parity(f, g, data, e) == out;
  }

  /**
   * An encoded block is a codeword: read as a polynomial it vanishes at every
   * root of the generator of degree e.
   */
  lemma EncodeBlockRoots(c: Coder, block: seq<nat>, x: nat)
    requires CoderValid(c) && InField(c.field, block) && EncodeBlock(c, block).Success?
    requires x < c.field.size && IsRoot(c.field, c.ecSize, x)
    ensures InField(c.field, EncodeBlock(c, block).value.1)
    ensures Horner(c.field, EncodeBlock(c, block).value.1, x) == 0
  {
    EncodeBlockParity(c, block);
    var f, e := c.field, c.ecSize;
    var g := Generator(f, e).value;
    var data := block[..|block| - e];
    GeneratorRoots(f, e, x);
    ParityRoots(f, g, data, e, x);
    assert EncodeBlock(c, block).value.1 == data + Parity(f, g, data, e);
  }

  /** Every block the encoder emits is a codeword of the coder's generator. */
  lemma EncodeBlockCodeword(c: Coder, block: seq<nat>)
    requires CoderValid(c) && InField(c.field, block) && EncodeBlock(c, block).Success?
    ensures c.ecSize >= 1 && Codeword(c.field, c.ecSize, EncodeBlock(c, block).value.1)
  {
    EncodeBlockData(c, block);
    var out := EncodeBlock(c, block).value.1;
    forall x: nat | x < c.field.size && IsRoot(c.field, c.ecSize, x)
      ensures InField(c.field, out) && Horner(c.field, out, x) == 0
    {
      EncodeBlockRoots(c, block, x);
    }
  }
}
