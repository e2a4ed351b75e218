/**
 * The Reed-Solomon block coder: the error marker, the generator-polynomial cache
 * and the systematic block encoder. Symbols are field elements; the coder is
 * used with the 256-element field, so a symbol is also a byte.
 */
module ReedSolomon {
  import opened Bits
  import opened Results
  import F = GaloisField
  import Laws = FieldLaws
  import opened GaloisFieldPoly
  import PL = PolyLaws
  import opened Chains

  /** The UTF-8 bytes of the text "***ERROR***". */
  const ErrorMarker: seq<nat> := [42, 42, 42, 69, 82, 82, 79, 82, 42, 42, 42]

  /** The byte written after the marker to fill an error block (a space). */
  const Filler: nat := 32

  /**
   * A coder: the field, data symbols per block, parity symbols per block, the
   * block substituted for an undecodable one, and the cached generators
   * (entry d is the generator of degree d).
   */
  datatype Coder = Coder(field: F.Field, blockSize: int, ecSize: int, errorBlock: seq<nat>, generators: seq<seq<nat>>)

  /** The state every coder the constructor builds over a primitive 256-element field is in. */
  predicate CoderValid(c: Coder)
  {
    && F.Valid(c.field) && F.Primitive(c.field)
    && c.field.size == 256
    && c.blockSize >= |ErrorMarker|
    && |c.errorBlock| == c.blockSize
    && CacheConsistent(c.field, c.generators)
  }

  /** Every value is a byte. */
  predicate Bytes(s: seq<nat>)
  {
    forall i :: 0 <= i < |s| ==> s[i] < 256
  }

  /**
   * The constructor: a block shorter than the marker is rejected; the error block
   * is the marker followed by spaces, and the cache holds the generator 1.
   */
  function NewCoder(f: F.Field, blockSize: int, ecSize: int): (r: Result<Coder>)
    ensures r.Failure? <==> blockSize < |ErrorMarker|
    ensures r.Success? ==>
      && r.value.field == f && r.value.blockSize == blockSize && r.value.ecSize == ecSize
      && |r.value.errorBlock| == blockSize
      && r.value.errorBlock[..|ErrorMarker|] == ErrorMarker
      && (forall i :: |ErrorMarker| <= i < blockSize ==> r.value.errorBlock[i] == Filler)
      && r.value.generators == [One]
  {
    if blockSize < |ErrorMarker| then
      Failure(ArgumentError)
    else
      var errorBlock := ErrorMarker + seq(blockSize - |ErrorMarker|, _ => Filler);
      Success(Coder(f, blockSize, ecSize, errorBlock, [One]))
  }

  /** C#'s integer division, which truncates toward zero. */
  function Quot(a: int, b: int): int
    requires b != 0
  {
    var q := (if a < 0 then -a else a) / (if b < 0 then -b else b);
    if (a < 0) == (b < 0) then q else -q
  }

  /** C#'s remainder, which takes the sign of the dividend. */
  function Rem(a: int, b: int): int
    requires b != 0
  {
    a - b * Quot(a, b)
  }

  /** The block count of the message loops: n / size, plus one for a partial last block. */
  function BlockCount(n: int, size: int): int
    requires size != 0
  {
    Quot(n, size) + (if Rem(n, size) != 0 then 1 else 0)
  }

  /** An empty message has no blocks, whatever the block size. */
  lemma BlockCountZero(size: int)
    requires size != 0
    ensures BlockCount(0, size) == 0
  {
    assert Quot(0, size) == 0;
  }

  /**
   * For a positive block size the count is the number of blocks needed to
   * hold n symbols: none for nothing, and one more than for n - size otherwise.
   */
  lemma BlockCountStep(n: nat, size: int)
    requires size > 0
    ensures BlockCount(n, size) >= 0
    ensures BlockCount(n, size) == 0 <==> n == 0
    ensures n > 0 ==> BlockCount(n, size) == 1 + BlockCount(if n < size then 0 else n - size, size)
  {
    if n >= size {
      var q, r := (n - size) / size, (n - size) % size;
      DivUnique(n, size, q + 1, r);
      assert Quot(n, size) == 1 + Quot(n - size, size);
    } else if n > 0 {
      DivUnique(n, size, 0, n);
    }
  }

  /** Euclidean division is determined by the quotient-remainder equation. */
  lemma DivUnique(a: int, b: int, q: int, r: int)
    requires b > 0 && a == b * q + r && 0 <= r < b
    ensures a / b == q && a % b == r
  {
    var q0, r0 := a / b, a % b;
    if q > q0 {
      MulStep(b, q0, q);
    } else if q < q0 {
      MulStep(b, q, q0);
    }
  }

  /** Multiplying by a positive b keeps a gap of at least b between distinct integers. */
  lemma MulStep(b: int, x: int, y: int)
    requires b > 0 && x < y
    ensures b * x + b <= b * y
  {
    var d := y - x - 1;
    assert b * y == b * x + b + b * d;
  }

  /** A coder the constructor builds over a primitive 256-element field is in that state. */
  lemma NewCoderValid(f: F.Field, blockSize: int, ecSize: int)
    requires F.Primitive(f) && f.size == 256 && NewCoder(f, blockSize, ecSize).Success?
    ensures CoderValid(NewCoder(f, blockSize, ecSize).value)
  {
    Laws.PrimitiveValid(f);
  }

  /** The factor x + alpha^(i + generatorBase) contributed by root i. */
  function Factor(a: nat): seq<nat>
  {
    [1, a]
  }

  /**
   * One step of the generator list: multiply generator i by the factor for root
   * i, whose exponent may fall outside the table. The list only ever holds
   * polynomials, so the guard never takes its second branch.
   */
  function GenStep(f: F.Field, g: seq<nat>, i: nat): (r: Result<seq<nat>>)
    requires F.Valid(f)
    ensures r.Success? <==> 0 <= i + f.generatorBase < f.size
    ensures r.Success? && IsPoly(f, g) ==>
      IsPoly(f, Factor(f.expTable[i + f.generatorBase])) && r.value == Multiply(f, g, Factor(f.expTable[i + f.generatorBase]))
  {
    var a :- F.Exp(f, i + f.generatorBase);
    assert IsPoly(f, Factor(a));
    if IsPoly(f, g) then Success(Multiply(f, g, Factor(a))) else Success(g)
  }

  /** GenStep as a function value. */
  function Steps(f: F.Field): (seq<nat>, nat) -> Result<seq<nat>>
    requires F.Valid(f)
  {
    (g, i) => GenStep(f, g, i)
  }

  /** The generators of degree 0 .. n-1: 1, then each the previous one times a factor. */
  function Generators(f: F.Field, n: nat): Result<seq<seq<nat>>>
    requires F.Valid(f) && n >= 1
  {
    Chain(One, Steps(f), n)
  }

  /** The list exists exactly when every root exponent is in the table, and holds polynomials. */
  lemma {:induction false} GeneratorsShape(f: F.Field, n: nat)
    requires F.Valid(f) && n >= 1
    ensures Generators(f, n).Success? <==> n == 1 || (0 <= f.generatorBase && n - 2 + f.generatorBase < f.size)
    ensures Generators(f, n).Success? ==> forall d :: 0 <= d < n ==> IsPoly(f, Generators(f, n).value[d])
  {
    if n > 1 {
      GeneratorsShape(f, n - 1);
      if Generators(f, n - 1).Success? {
        GeneratorsGrow(f, Generators(f, n - 1).value, n);
      } else {
        ChainStop(One, Steps(f), n - 1, n);
      }
    }
  }

  /** A list of polynomial generators grows by one exactly when the next root exponent is in the table. */
  lemma GeneratorsGrow(f: F.Field, gs: seq<seq<nat>>, n: nat)
    requires F.Valid(f) && |gs| >= 1 && n == |gs| + 1 && Generators(f, |gs|) == Success(gs)
    requires forall d :: 0 <= d < |gs| ==> IsPoly(f, gs[d])
    ensures Generators(f, n).Success? <==> 0 <= n - 2 + f.generatorBase < f.size
    ensures Generators(f, n).Success? ==> forall d :: 0 <= d < n ==> IsPoly(f, Generators(f, n).value[d])
  {
    var m := |gs|;
    GeneratorsNext(f, gs, n);
    var s := GenStep(f, gs[m - 1], m - 1);
    if s.Success? {
      var next := gs + [s.value];
      forall d | 0 <= d < n
        ensures IsPoly(f, next[d])
      {
        if d < m {
          assert next[d] == gs[d];
        }
      }
    }
  }

  /** The next generator list: the step applied to the last generator, or its failure. */
  lemma GeneratorsNext(f: F.Field, gs: seq<seq<nat>>, n: nat)
    requires F.Valid(f) && |gs| >= 1 && n == |gs| + 1 && Generators(f, |gs|) == Success(gs)
    ensures GenStep(f, gs[|gs| - 1], |gs| - 1).Success? ==>
      Generators(f, n) == Success(gs + [GenStep(f, gs[|gs| - 1], |gs| - 1).value])
    ensures GenStep(f, gs[|gs| - 1], |gs| - 1).Failure? ==> Generators(f, n).Failure?
  {
    StepsApply(f, gs[|gs| - 1], |gs| - 1);
    ChainNext(One, Steps(f), gs);
  }

  /** Applying the step function value is the step. */
  lemma StepsApply(f: F.Field, g: seq<nat>, i: nat)
    requires F.Valid(f)
    ensures Steps(f)(g, i) == GenStep(f, g, i)
  {
  }

  /** The generator of degree d: the product of (x + alpha^(i + generatorBase)) for i < d. */
  function Generator(f: F.Field, d: nat): Result<seq<nat>>
    requires F.Valid(f)
  {
    var gs :- Generators(f, d + 1);
    Success(gs[d])
  }

  /** The generator exists exactly when every root exponent is in the table, and is a polynomial. */
  lemma GeneratorShape(f: F.Field, d: nat)
    requires F.Valid(f)
    ensures Generator(f, d).Success? <==> d == 0 || (0 <= f.generatorBase && d - 1 + f.generatorBase < f.size)
    ensures Generator(f, d).Success? ==> IsPoly(f, Generator(f, d).value)
  {
    GeneratorsShape(f, d + 1);
  }

  /** The value of x + a at x is x XOR a. */
  lemma HornerFactor(f: F.Field, a: nat, x: nat)
    requires F.Primitive(f) && a < f.size && x < f.size
    ensures F.Valid(f) && InField(f, Factor(a))
    ensures Horner(f, Factor(a), x) == Xor(x, a)
  {
    Laws.PrimitiveValid(f);
    assert Factor(a)[..1] == [1];
    assert [1][..0] == [];
    assert Horner(f, [1], x) == 1 by {
      XorZero(1);
    }
    Laws.MulOne(f, x);
  }

  /** The constant 1 has no zeros. */
  lemma HornerOne(f: F.Field, x: nat)
    requires F.Valid(f) && x < f.size
    ensures InField(f, One) && Horner(f, One, x) == 1
  {
    assert One[..0] == [];
    XorZero(1);
  }

  /** Multiplying by x + a adds exactly the zero a. */
  lemma HornerTimesFactor(f: F.Field, h: seq<nat>, a: nat, x: nat)
    requires F.Primitive(f) && IsPoly(f, h) && a < f.size && x < f.size
    ensures F.Valid(f) && IsPoly(f, Factor(a))
    ensures Horner(f, Multiply(f, h, Factor(a)), x) == 0 <==> Horner(f, h, x) == 0 || x == a
  {
    Laws.PrimitiveValid(f);
    HornerFactor(f, a, x);
    PL.HornerMultiply(f, h, Factor(a), x);
    var hx := Horner(f, h, x);
    if Xor(x, a) == 0 {
      XorZeroEq(x, a);
    } else {
      if x == a {
        XorSelf(x);
      }
      if hx != 0 {
        Laws.MulNonZero(f, hx, Xor(x, a));
      }
    }
  }

  /** x is one of the first d roots alpha^generatorBase .. alpha^(generatorBase + d - 1). */
  predicate IsRoot(f: F.Field, d: nat, x: nat)
  {
    exists j :: f.generatorBase <= j < f.generatorBase + d && 0 <= j < |f.expTable| && x == f.expTable[j]
  }

  /** A codeword of d check symbols: read as a polynomial, w vanishes at each of the d generator roots. */
  predicate Codeword(f: F.Field, d: nat, w: seq<nat>)
    requires F.Valid(f)
  {
    InField(f, w) && forall x: nat :: x < f.size && IsRoot(f, d, x) ==> Horner(f, w, x) == 0
  }

  /** Multiplying a monic polynomial by x + a raises its degree by one and keeps it monic. */
  lemma MonicTimesFactor(f: F.Field, h: seq<nat>, a: nat)
    requires F.Valid(f) && F.Primitive(f) && IsPoly(f, h) && Lead(h) == 1 && a < f.size
    ensures IsPoly(f, Factor(a))
    ensures Degree(Multiply(f, h, Factor(a))) == Degree(h) + 1 && Lead(Multiply(f, h, Factor(a))) == 1
  {
    assert !IsZero(h) && !IsZero(Factor(a)) && Degree(Factor(a)) == 1 && Lead(Factor(a)) == 1;
    PL.MultiplyDegree(f, h, Factor(a));
    Laws.MulOne(f, 1);
  }

  /**
   * What multiplying h by x + a does to the facts the generator laws are about:
   * g is a polynomial one degree higher, monic when h is, and its zeros are
   * those of h together with a.
   */
  predicate Grows(f: F.Field, h: seq<nat>, g: seq<nat>, a: nat)
    requires F.Valid(f)
  {
    && IsPoly(f, h) && IsPoly(f, g) && a < f.size
    && (Lead(h) == 1 ==> Degree(g) == Degree(h) + 1 && Lead(g) == 1)
    && (forall x: nat :: x < f.size ==> (Horner(f, g, x) == 0 <==> Horner(f, h, x) == 0 || x == a))
  }

  /** Multiplying by x + a grows a polynomial in that sense. */
  lemma TimesFactorGrows(f: F.Field, h: seq<nat>, a: nat, g: seq<nat>)
    requires F.Valid(f) && F.Primitive(f) && IsPoly(f, h) && a < f.size
    requires IsPoly(f, Factor(a)) && g == Multiply(f, h, Factor(a))
    ensures Grows(f, h, g, a)
  {
    if Lead(h) == 1 {
      MonicTimesFactor(f, h, a);
    }
    forall x: nat | x < f.size
      ensures Horner(f, g, x) == 0 <==> Horner(f, h, x) == 0 || x == a
    {
      HornerTimesFactor(f, h, a, x);
    }
  }

  /** The first d roots are the first d-1 roots and root d-1. */
  lemma IsRootStep(f: F.Field, d: nat, x: nat)
    requires 1 <= d && 0 <= d - 1 + f.generatorBase < |f.expTable|
    ensures IsRoot(f, d, x) <==> IsRoot(f, d - 1, x) || x == f.expTable[d - 1 + f.generatorBase]
  {
    if IsRoot(f, d, x) {
      var j :| f.generatorBase <= j < f.generatorBase + d && 0 <= j < |f.expTable| && x == f.expTable[j];
      if j < f.generatorBase + d - 1 {
        assert IsRoot(f, d - 1, x);
      }
    }
  }

  /**
   * A list that starts at 1 and whose every entry grows from the previous one
   * by the factor for the next root: the shape of the generator list, stated
   * without reference to how the list was computed.
   */
  predicate Linked(f: F.Field, gs: seq<seq<nat>>)
    requires F.Valid(f)
  {
    && |gs| >= 1 && gs[0] == One
    && (forall d :: 1 <= d < |gs| ==> LinkAt(f, gs, d))
  }

  /** Entry d grows from entry d-1 by the factor for root d-1. */
  predicate LinkAt(f: F.Field, gs: seq<seq<nat>>, d: nat)
    requires F.Valid(f) && 1 <= d < |gs|
  {
    && 0 <= d - 1 + f.generatorBase < f.size
    && Grows(f, gs[d - 1], gs[d], f.expTable[d - 1 + f.generatorBase])
  }

  /** Entry d of a linked list is a monic polynomial of degree d. */
  lemma {:induction false} LinkedMonic(f: F.Field, gs: seq<seq<nat>>, d: nat)
    requires F.Valid(f) && Linked(f, gs) && d < |gs|
    ensures IsPoly(f, gs[d]) && Degree(gs[d]) == d && Lead(gs[d]) == 1
  {
    if d == 0 {
      assert gs[0] == One;
    } else {
      assert LinkAt(f, gs, d);
      LinkedMonic(f, gs, d - 1);
    }
  }

  /** The zeros of entry d of a linked list are exactly the first d roots. */
  lemma {:induction false} LinkedRoots(f: F.Field, gs: seq<seq<nat>>, d: nat, x: nat)
    requires F.Valid(f) && Linked(f, gs) && d < |gs| && x < f.size
    ensures IsPoly(f, gs[d])
    ensures Horner(f, gs[d], x) == 0 <==> IsRoot(f, d, x)
  {
    if d == 0 {
      HornerOne(f, x);
    } else {
      assert LinkAt(f, gs, d);
      LinkedRoots(f, gs, d - 1, x);
      IsRootStep(f, d, x);
    }
  }

  /** Entry d of a consistent cache grows from entry d-1. */
  lemma CacheGrows(f: F.Field, cache: seq<seq<nat>>, d: nat)
    requires F.Valid(f) && F.Primitive(f) && CacheConsistent(f, cache) && 1 <= d < |cache|
    requires IsPoly(f, cache[d - 1])
    ensures LinkAt(f, cache, d)
  {
    CacheLink(f, cache, d);
    var a := f.expTable[d - 1 + f.generatorBase];
    TimesFactorGrows(f, cache[d - 1], a, cache[d]);
  }

  /** The generator list is linked. */
  lemma GeneratorsLinked(f: F.Field, n: nat)
    requires F.Valid(f) && F.Primitive(f) && n >= 1 && Generators(f, n).Success?
    ensures Linked(f, Generators(f, n).value)
  {
    var gs := Generators(f, n).value;
    GeneratorsShape(f, n);
    forall d | 1 <= d < n
      ensures LinkAt(f, gs, d)
    {
      CacheGrows(f, gs, d);
    }
  }

  /** The generator of degree d is a monic polynomial of degree d. */
  lemma GeneratorMonic(f: F.Field, d: nat)
    requires F.Valid(f) && F.Primitive(f) && Generator(f, d).Success?
    ensures IsPoly(f, Generator(f, d).value)
    ensures Degree(Generator(f, d).value) == d && Lead(Generator(f, d).value) == 1
  {
    GeneratorsLinked(f, d + 1);
    LinkedGeneratorMonic(f, Generators(f, d + 1).value, d);
  }

  /** GeneratorMonic once the generator list is known to be linked. */
  lemma LinkedGeneratorMonic(f: F.Field, gs: seq<seq<nat>>, d: nat)
    requires F.Valid(f) && Generators(f, d + 1) == Success(gs) && Linked(f, gs)
    ensures Generator(f, d) == Success(gs[d])
    ensures IsPoly(f, gs[d]) && Degree(gs[d]) == d && Lead(gs[d]) == 1
  {
    assert |gs| == d + 1;
    LinkedMonic(f, gs, d);
  }

  /** The zeros of the generator of degree d in the field are exactly its d roots. */
  lemma GeneratorRoots(f: F.Field, d: nat, x: nat)
    requires F.Valid(f) && F.Primitive(f) && Generator(f, d).Success? && x < f.size
    ensures IsPoly(f, Generator(f, d).value)
    ensures Horner(f, Generator(f, d).value, x) == 0 <==> IsRoot(f, d, x)
  {
    GeneratorsLinked(f, d + 1);
    LinkedGeneratorRoots(f, Generators(f, d + 1).value, d, x);
  }

  /** GeneratorRoots once the generator list is known to be linked. */
  lemma LinkedGeneratorRoots(f: F.Field, gs: seq<seq<nat>>, d: nat, x: nat)
    requires F.Valid(f) && Generators(f, d + 1) == Success(gs) && Linked(f, gs) && x < f.size
    ensures Generator(f, d) == Success(gs[d])
    ensures IsPoly(f, gs[d])
    ensures Horner(f, gs[d], x) == 0 <==> IsRoot(f, d, x)
  {
    assert |gs| == d + 1;
    LinkedRoots(f, gs, d, x);
  }

  /** The cache holds exactly the generators of degree 0 .. |cache|-1. */
  predicate CacheConsistent(f: F.Field, cache: seq<seq<nat>>)
    requires F.Valid(f)
  {
    |cache| >= 1 && Generators(f, |cache|) == Success(cache)
  }

  /** Every entry of a consistent cache is the generator of its degree. */
  lemma CacheEntry(f: F.Field, cache: seq<seq<nat>>, d: nat)
    requires F.Valid(f) && CacheConsistent(f, cache) && d < |cache|
    ensures Generator(f, d) == Success(cache[d])
  {
    ChainPrefix(One, Steps(f), |cache|, d + 1);
    assert cache[..d + 1][d] == cache[d];
  }

  /** Each entry of a consistent cache past the first is one step from the entry before it. */
  lemma CacheLink(f: F.Field, cache: seq<seq<nat>>, d: nat)
    requires F.Valid(f) && CacheConsistent(f, cache) && 1 <= d < |cache|
    ensures GenStep(f, cache[d - 1], d - 1) == Success(cache[d])
  {
    ChainLinks(One, Steps(f), |cache|);
    assert Steps(f)(cache[d - 1], d - 1) == Success(cache[d]);
  }

  /** The generator of degree d >= 1 is the one of degree d-1 times the factor for root d-1. */
  lemma GeneratorNext(f: F.Field, d: nat)
    requires F.Valid(f) && d >= 1 && Generator(f, d).Success?
    ensures Generator(f, d - 1).Success?
    ensures GenStep(f, Generator(f, d - 1).value, d - 1) == Generator(f, d)
  {
    var gs := Generators(f, d + 1).value;
    assert CacheConsistent(f, gs);
    CacheEntry(f, gs, d - 1);
    CacheEntry(f, gs, d);
    CacheLink(f, gs, d);
  }

  /**
   * buildGenerator: extends the cache up to `degree` when it is too short, then
   * reads entry `degree`. The cache only grows and keeps its old entries.
   */
  function BuildGenerator(f: F.Field, cache: seq<seq<nat>>, degree: nat): (r: Result<(seq<seq<nat>>, seq<nat>)>)
    requires F.Valid(f) && |cache| >= 1
    ensures r.Success? ==> cache <= r.value.0 && degree < |r.value.0| && r.value.1 == r.value.0[degree]
    ensures CacheConsistent(f, cache) ==>
      && (r.Success? <==> Generator(f, degree).Success?)
      && (r.Success? ==> r.value.1 == Generator(f, degree).value && CacheConsistent(f, r.value.0))
      && (r.Success? ==> IsPoly(f, r.value.1))
  {
    var e := Extend(Steps(f), cache, degree);
    assert CacheConsistent(f, cache) ==>
      && (e.Success? <==> Generators(f, degree + 1).Success?)
      && (e.Success? ==> CacheConsistent(f, e.value) && Generator(f, degree) == Success(e.value[degree]))
      && (e.Success? ==> IsPoly(f, e.value[degree])) by {
      if CacheConsistent(f, cache) {
        ExtendChain(One, Steps(f), cache, degree);
        if e.Success? {
          CacheEntry(f, e.value, degree);
          GeneratorShape(f, degree);
        }
      }
    }
    var extended :- e;
    Success((extended, extended[degree]))
  }
}
