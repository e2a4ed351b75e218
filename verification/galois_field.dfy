/**
 * Arithmetic in GF(size) through exponential and logarithm tables built
 * from a primitive polynomial given as a bit mask.
 */
module GaloisField {
  import opened Bits
  import opened Results

  /** Largest field size for which doubling a table entry stays inside a 32-bit int. */
  const MaxSize: nat := 0x4000_0000

  /**
   * A field: the primitive polynomial (bit i is the coefficient of x^i), the number
   * of elements, the base b of the generator polynomial (x + a^b)(x + a^(b+1))...,
   * and the two tables the constructor fills.
   */
  datatype Field = Field(
    primitive: nat,
    size: nat,
    generatorBase: int,
    expTable: seq<nat>,
    logTable: seq<nat>)

  /** One step of the table build: double x and reduce it once it reaches size. */
  function Step(primitive: nat, size: nat, x: nat): nat
    requires size >= 1
  {
    if 2 * x >= size then And(Xor(2 * x, primitive), size - 1) else 2 * x
  }

  /** The value x holds after i steps, starting from 1. */
  function Power(primitive: nat, size: nat, i: nat): nat
    requires size >= 1
  {
    if i == 0 then 1 else Step(primitive, size, Power(primitive, size, i - 1))
  }

  function ExpTable(primitive: nat, size: nat): (t: seq<nat>)
    ensures |t| == size
  {
    if size == 0 then [] else seq(size, i requires 0 <= i < size => Power(primitive, size, i))
  }

  /** The logarithm table after the first n entries of exp were recorded in order. */
  function LogFill(exp: seq<nat>, size: nat, n: nat): (t: seq<nat>)
    requires n <= |exp|
    requires forall i :: 0 <= i < n ==> exp[i] < size
    ensures |t| == size
  {
    if n == 0 then seq(size, _ => 0)
    else LogFill(exp, size, n - 1)[exp[n - 1] := n - 1]
  }

  lemma {:induction false} StepBound(primitive: nat, size: nat, x: nat)
    requires size >= 1 && x < size
    ensures Step(primitive, size, x) < size
  {
    if 2 * x >= size {
      AndBound(Xor(2 * x, primitive), size - 1);
    }
  }

  lemma {:induction false} PowerBound(primitive: nat, size: nat, i: nat)
    requires size >= 2
    ensures Power(primitive, size, i) < size
  {
    if i > 0 {
      PowerBound(primitive, size, i - 1);
      StepBound(primitive, size, Power(primitive, size, i - 1));
    }
  }

  /**
   * The field constructor. It does not check that size and primitive agree;
   * every entry of the exponential table still lies in [0, size) once size >= 2,
   * because a value reaching size is masked back to size - 1 bits.
   */
  function NewField(primitive: int, size: int, genBase: int): (f: Field)
    requires 0 <= primitive && 0 <= size <= MaxSize
    ensures f.size == size && f.primitive == primitive && f.generatorBase == genBase
    ensures |f.expTable| == size && |f.logTable| == size
    ensures size >= 1 ==> f.expTable[0] == 1
    ensures size >= 2 ==> forall i :: 0 <= i < size ==> f.expTable[i] < size
    ensures size >= 2 ==> forall a :: 0 <= a < size ==> f.logTable[a] < size - 1
  {
    var exp := ExpTable(primitive, size);
    var n := if size == 0 then 0 else size - 1;
    assert size >= 2 ==> forall i :: 0 <= i < size ==> exp[i] < size by {
      if size >= 2 {
        forall i | 0 <= i < size
          ensures exp[i] < size
        {
          PowerBound(primitive, size, i);
        }
      }
    }
    var log := LogFill(exp, size, n);
    LogFillBound(exp, size, n);
    Field(primitive, size, genBase, exp, log)
  }

  lemma {:induction false} LogFillBound(exp: seq<nat>, size: nat, n: nat)
    requires n <= |exp|
    requires forall i :: 0 <= i < n ==> exp[i] < size
    ensures forall a :: 0 <= a < size ==> LogFill(exp, size, n)[a] < n || LogFill(exp, size, n)[a] == 0
  {
    if n > 0 {
      LogFillBound(exp, size, n - 1);
    }
  }

  /**
   * Recording exp[0..n) in order makes log the inverse of exp there, provided
   * those entries are pairwise distinct.
   */
  lemma {:induction false} LogFillInverts(exp: seq<nat>, size: nat, n: nat)
    requires n <= |exp|
    requires forall i :: 0 <= i < n ==> exp[i] < size
    requires forall i, j :: 0 <= i < j < n ==> exp[i] != exp[j]
    ensures forall i :: 0 <= i < n ==> LogFill(exp, size, n)[exp[i]] == i
  {
    if n > 0 {
      LogFillInverts(exp, size, n - 1);
    }
  }

  /** Tables of the right shape for table look-ups on elements below size. */
  predicate Valid(f: Field)
  {
    && 2 <= f.size <= MaxSize
    && IsPow2(f.size)
    && |f.expTable| == f.size
    && |f.logTable| == f.size
    && (forall i :: 0 <= i < f.size ==> f.expTable[i] < f.size)
    && (forall a :: 0 <= a < f.size ==> f.logTable[a] < f.size - 1)
  }

  /** exp is one-to-one on [0, size - 1). */
  predicate ExpInjective(f: Field)
    requires |f.expTable| == f.size
  {
    forall i, j :: 0 <= i < j < f.size - 1 ==> f.expTable[i] != f.expTable[j]
  }

  /**
   * log undoes exp on [0, size - 1). For the constructor's tables this is the
   * same as exp being one-to-one there (FieldLaws.InjectiveIffLogInverts).
   */
  predicate LogInverts(f: Field)
    requires Valid(f)
  {
    forall i :: 0 <= i < f.size - 1 ==> f.logTable[f.expTable[i]] == i
  }

  /** Each exponential table entry is one doubling step from the one before it, as the constructor fills them. */
  predicate ExpDoubles(f: Field)
    requires |f.expTable| == f.size
  {
    forall k {:trigger Step(f.primitive, f.size, f.expTable[k])} :: 0 <= k < f.size - 1 ==> f.expTable[k + 1] == Step(f.primitive, f.size, f.expTable[k])
  }

  /**
   * The primitive polynomial really generates the field: the tables have the
   * constructor's shape (alpha^0 == 1, each entry one doubling step from the
   * last) for a power-of-two size, alpha^0..alpha^(size-2) are distinct (log
   * undoes exp), and alpha^(size-1) wraps around to 1. FieldLaws.NewFieldPrimitive
   * shows which constructed fields these are.
   */
  predicate Primitive(f: Field)
  {
    && Valid(f)
    && f.expTable[0] == 1
    && ExpDoubles(f)
    && LogInverts(f)
    && f.expTable[f.size - 1] == 1
  }

  /** Addition and subtraction coincide in characteristic 2. */
  function AddOrSubtract(a: nat, b: nat): nat
  {
    Xor(a, b)
  }

  lemma AddOrSubtractLaws(a: nat, b: nat)
    ensures AddOrSubtract(a, b) == AddOrSubtract(b, a)
    ensures AddOrSubtract(AddOrSubtract(a, b), b) == a
    ensures AddOrSubtract(a, a) == 0 && AddOrSubtract(a, 0) == a
  {
    XorComm(a, b);
    XorCancel(a, b);
    XorSelf(a);
  }

  /** alpha^a, read from the table; an index outside the table throws. */
  function Exp(f: Field, a: int): (r: Result<nat>)
    ensures r.Success? <==> 0 <= a < |f.expTable|
    ensures r.Success? ==> r.value == f.expTable[a]
  {
    if 0 <= a < |f.expTable| then Success(f.expTable[a]) else Failure(IndexOutOfRange)
  }

  /** log_alpha(a); zero has no logarithm. */
  function Log(f: Field, a: int): (r: Result<nat>)
    ensures a == 0 ==> r == Failure(ArgumentError)
    ensures r.Success? <==> 0 < a < |f.logTable|
    ensures r.Success? ==> r.value == f.logTable[a]
  {
    if a == 0 then Failure(ArgumentError)
    else if a < 0 || a >= |f.logTable| then Failure(IndexOutOfRange)
    else Success(f.logTable[a])
  }

  /** 1/a, computed as alpha^(size - 1 - log a); zero has no inverse. */
  function Inverse(f: Field, a: int): (r: Result<nat>)
    ensures a == 0 ==> r == Failure(ArithmeticError)
    ensures Valid(f) && 0 < a < f.size ==> r.Success? && r.value < f.size
  {
    if a == 0 then Failure(ArithmeticError)
    else if a < 0 || a >= |f.logTable| then Failure(IndexOutOfRange)
    else
      var i := f.size - f.logTable[a] - 1;
      if 0 <= i < |f.expTable| then Success(f.expTable[i]) else Failure(IndexOutOfRange)
  }

  /** a * b through the logarithms. */
  function Multiply(f: Field, a: nat, b: nat): (r: nat)
    requires Valid(f) && a < f.size && b < f.size
    ensures r < f.size
    ensures a == 0 || b == 0 ==> r == 0
  {
    if a == 0 || b == 0 then 0
    else f.expTable[(f.logTable[a] + f.logTable[b]) % (f.size - 1)]
  }
}
