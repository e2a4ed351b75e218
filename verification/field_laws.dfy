/**
 * Algebraic laws of the table arithmetic of a primitive field: logarithms invert
 * the exponential table, multiplication is a commutative, associative operation
 * with identity 1 and inverses, and it distributes over XOR.
 */
module FieldLaws {
  import opened Bits
  import opened Results
  import opened GaloisField

  lemma PrimitiveValid(f: Field)
    requires Primitive(f)
    ensures Valid(f)
  {
  }

  /** Consecutive table entries are related by one doubling step. */
  lemma ExpStep(f: Field, k: nat)
    requires Primitive(f) && k < f.size - 1
    ensures f.expTable[k + 1] == Step(f.primitive, f.size, f.expTable[k])
  {
  }

  /** log(exp(i)) == i on [0, size - 1). */
  lemma LogExp(f: Field, i: nat)
    requires Primitive(f) && i < f.size - 1
    ensures f.logTable[f.expTable[i]] == i
  {
  }

  /**
   * For the tables the constructor builds, log undoes exp on [0, size - 1)
   * exactly when alpha^0 .. alpha^(size-2) are pairwise distinct.
   */
  lemma InjectiveIffLogInverts(f: Field)
    requires Valid(f) && f == NewField(f.primitive, f.size, f.generatorBase)
    ensures ExpInjective(f) <==> LogInverts(f)
  {
    if ExpInjective(f) {
      LogFillInverts(ExpTable(f.primitive, f.size), f.size, f.size - 1);
    }
    if LogInverts(f) {
      forall i, j | 0 <= i < j < f.size - 1
        ensures f.expTable[i] != f.expTable[j]
      {
        assert f.logTable[f.expTable[i]] == i && f.logTable[f.expTable[j]] == j;
      }
    }
  }

  /**
   * The fields the constructor builds that satisfy Primitive are exactly those
   * whose powers alpha^0..alpha^(size-2) are distinct and wrap around to 1.
   */
  lemma NewFieldPrimitive(primitive: nat, size: nat, genBase: int)
    requires 2 <= size <= MaxSize && IsPow2(size)
    ensures var f := NewField(primitive, size, genBase);
      Primitive(f) <==> ExpInjective(f) && f.expTable[size - 1] == 1
  {
    var f := NewField(primitive, size, genBase);
    assert Valid(f);
    assert ExpDoubles(f) by {
      forall k | 0 <= k < size - 1
        ensures f.expTable[k + 1] == Step(primitive, size, f.expTable[k])
      {
        assert f.expTable[k + 1] == Power(primitive, size, k + 1);
      }
    }
    InjectiveIffLogInverts(f);
  }

  /** alpha^i is never zero. */
  lemma ExpNonZero(f: Field, i: nat)
    requires Primitive(f) && i < f.size - 1
    ensures f.expTable[i] != 0
  {
    ExpStep(f, i);
  }

  lemma {:induction false} ImageCard(exp: seq<nat>, m: nat)
    requires m <= |exp|
    requires forall i, j :: 0 <= i < j < m ==> exp[i] != exp[j]
    ensures |set i | 0 <= i < m :: exp[i]| == m
  {
    if m > 0 {
      ImageCard(exp, m - 1);
      var s := set i | 0 <= i < m - 1 :: exp[i];
      assert (set i | 0 <= i < m :: exp[i]) == s + {exp[m - 1]};
      assert exp[m - 1] !in s;
    }
  }

  /** The non-zero elements 1..m, listed in order. */
  function NonZeros(m: nat): (s: seq<nat>)
    ensures |s| == m
    ensures forall i :: 0 <= i < m ==> s[i] == i + 1
  {
    seq(m, i => i + 1)
  }

  lemma {:induction false} SubsetCard<T>(a: set<T>, b: set<T>)
    requires a <= b
    ensures |a| <= |b|
    decreases a
  {
    if a != {} {
      var x :| x in a;
      SubsetCard(a - {x}, b - {x});
    }
  }

  /** Reducing a sum of two exponents modulo size - 1 subtracts at most once. */
  lemma ModOnce(s: int, m: int)
    requires 0 < m && 0 <= s < 2 * m
    ensures s % m == if s < m then s else s - m
  {
    if s >= m {
      assert s == m * 1 + (s - m);
    }
  }

  /** Every non-zero element is a power of alpha (pigeonhole), so exp(log(a)) == a. */
  lemma ExpLog(f: Field, a: nat)
    requires Primitive(f) && 0 < a < f.size
    ensures f.logTable[a] < f.size - 1
    ensures f.expTable[f.logTable[a]] == a
  {
    var m := f.size - 1;
    var image := set i | 0 <= i < m :: f.expTable[i];
    var nonZero := set i | 0 <= i < m :: NonZeros(m)[i];
    ImageCard(f.expTable, m);
    ImageCard(NonZeros(m), m);
    assert image <= nonZero by {
      forall x | x in image
        ensures x in nonZero
      {
        var i :| 0 <= i < m && f.expTable[i] == x;
        ExpNonZero(f, i);
        assert x == NonZeros(m)[x - 1];
      }
    }
    assert a == NonZeros(m)[a - 1];
    if a !in image {
      SubsetCard(image, nonZero - {a});
      assert false;
    }
    var i :| 0 <= i < m && f.expTable[i] == a;
    LogExp(f, i);
  }

  lemma LogOne(f: Field)
    requires Primitive(f)
    ensures f.logTable[1] == 0
  {
    LogExp(f, 0);
  }

  /** An exponent sum wrapped once around m. */
  function Wrap(s: nat, m: nat): nat
  {
    if s < m then s else s - m
  }

  /** The product of non-zero elements, as an exponent sum wrapped once around size - 1. */
  lemma MulExp(f: Field, a: nat, b: nat)
    requires Primitive(f) && 0 < a < f.size && 0 < b < f.size
    ensures Wrap(f.logTable[a] + f.logTable[b], f.size - 1) < f.size - 1
    ensures Multiply(f, a, b) == f.expTable[Wrap(f.logTable[a] + f.logTable[b], f.size - 1)]
  {
    ModOnce(f.logTable[a] + f.logTable[b], f.size - 1);
  }

  lemma MulNonZero(f: Field, a: nat, b: nat)
    requires Primitive(f) && 0 < a < f.size && 0 < b < f.size
    ensures Multiply(f, a, b) != 0
  {
    MulExp(f, a, b);
    ExpNonZero(f, Wrap(f.logTable[a] + f.logTable[b], f.size - 1));
  }

  /** multiply is commutative (its zero cases are in Multiply's contract and MulNonZero). */
  lemma MulComm(f: Field, a: nat, b: nat)
    requires Valid(f) && a < f.size && b < f.size
    ensures Multiply(f, a, b) == Multiply(f, b, a)
  {
  }

  lemma MulOne(f: Field, a: nat)
    requires Primitive(f) && a < f.size
    ensures Multiply(f, a, 1) == a && Multiply(f, 1, a) == a
  {
    if a != 0 {
      LogOne(f);
      ExpLog(f, a);
      MulExp(f, a, 1);
      MulExp(f, 1, a);
    }
  }

  /** The logarithm of a product of non-zero elements is the wrapped sum of their logarithms. */
  lemma MulLog(f: Field, a: nat, b: nat)
    requires Primitive(f) && 0 < a < f.size && 0 < b < f.size
    ensures Multiply(f, a, b) != 0
    ensures f.logTable[Multiply(f, a, b)] == Wrap(f.logTable[a] + f.logTable[b], f.size - 1)
  {
    MulExp(f, a, b);
    MulNonZero(f, a, b);
    LogExp(f, Wrap(f.logTable[a] + f.logTable[b], f.size - 1));
  }

  lemma MulAssoc(f: Field, a: nat, b: nat, c: nat)
    requires Primitive(f) && a < f.size && b < f.size && c < f.size
    ensures Multiply(f, Multiply(f, a, b), c) == Multiply(f, a, Multiply(f, b, c))
  {
    if a != 0 && b != 0 && c != 0 {
      MulLog(f, a, b);
      MulLog(f, b, c);
      MulAssocLogs(f, a, b, c, Multiply(f, a, b), Multiply(f, b, c));
    }
  }

  /** Associativity once the logarithms of the inner products are known. */
  lemma MulAssocLogs(f: Field, a: nat, b: nat, c: nat, ab: nat, bc: nat)
    requires Valid(f) && 0 < a < f.size && 0 < b < f.size && 0 < c < f.size
    requires 0 < ab < f.size && 0 < bc < f.size
    requires f.logTable[ab] == Wrap(f.logTable[a] + f.logTable[b], f.size - 1)
    requires f.logTable[bc] == Wrap(f.logTable[b] + f.logTable[c], f.size - 1)
    ensures Multiply(f, ab, c) == Multiply(f, a, bc)
  {
    var m := f.size - 1;
    ModOnce(f.logTable[ab] + f.logTable[c], m);
    ModOnce(f.logTable[a] + f.logTable[bc], m);
    WrapAssoc(f.logTable[a], f.logTable[b], f.logTable[c], m);
  }

  /** Wrapped exponent addition is associative. */
  lemma WrapAssoc(x: nat, y: nat, z: nat, m: nat)
    requires x < m && y < m && z < m
    ensures Wrap(Wrap(x + y, m) + z, m) == Wrap(x + Wrap(y + z, m), m)
  {
  }

  /** inverse(a) is the multiplicative inverse of every non-zero a. */
  lemma InverseLaw(f: Field, a: nat)
    requires Primitive(f) && 0 < a < f.size
    ensures Inverse(f, a).Success?
    ensures var v := Inverse(f, a).value; 0 < v < f.size && Multiply(f, a, v) == 1
  {
    var m := f.size - 1;
    var la := f.logTable[a];
    ExpLog(f, a);
    var v := Inverse(f, a).value;
    assert v == f.expTable[m - la];
    if la == 0 {
      assert v == 1;
      LogOne(f);
      MulExp(f, a, v);
    } else {
      LogExp(f, m - la);
      ExpNonZero(f, m - la);
      MulExp(f, a, v);
    }
  }

  /** The doubling step iterated j times. */
  function StepPow(f: Field, j: nat, x: nat): nat
    requires Valid(f)
  {
    if j == 0 then x else Step(f.primitive, f.size, StepPow(f, j - 1, x))
  }

  /** The reduction term Step adds depends linearly on the top bit. */
  lemma TopTermLinear(a: nat, c: nat, n: nat, p: nat)
    requires n >= 1 && a < Pow2(n) && c < Pow2(n)
    ensures (if Shr(Xor(a, c), n - 1) == 1 then p else 0)
         == Xor(if Shr(a, n - 1) == 1 then p else 0, if Shr(c, n - 1) == 1 then p else 0)
  {
    SplitTop(a, n);
    SplitTop(c, n);
    XorShr(a, c, n - 1);
    XorSelf(p);
    XorZero(p);
    assert Xor(1, 1) == 0 && Xor(1, 0) == 1 && Xor(0, 1) == 1 && Xor(0, 0) == 0;
  }

  /** The doubling step is XOR-linear on field elements. */
  lemma StepLinear(f: Field, a: nat, c: nat)
    requires Valid(f) && a < f.size && c < f.size
    ensures Step(f.primitive, f.size, Xor(a, c))
         == Xor(Step(f.primitive, f.size, a), Step(f.primitive, f.size, c))
  {
    var n := Log2(f.size);
    var p := Low(f.primitive, n);
    XorBound(a, c, n);
    var x := Xor(a, c);
    StepShape(f, a);
    StepShape(f, c);
    StepShape(f, x);
    var ta := if Shr(a, n - 1) == 1 then p else 0;
    var tc := if Shr(c, n - 1) == 1 then p else 0;
    var tx := if Shr(x, n - 1) == 1 then p else 0;
    TopTermLinear(a, c, n, p);
    var la, lc := Low(a, n - 1), Low(c, n - 1);
    XorLow(a, c, n - 1);
    XorDouble(la, lc);
    assert 2 * Low(x, n - 1) == Xor(2 * la, 2 * lc);
    Xor4(2 * la, ta, 2 * lc, tc);
  }

  /** Step written through the top bit and the low bits of its argument. */
  lemma StepShape(f: Field, x: nat)
    requires Valid(f) && x < f.size
    ensures var n := Log2(f.size);
      n >= 1 &&
      Step(f.primitive, f.size, x)
        == Xor(2 * Low(x, n - 1), if Shr(x, n - 1) == 1 then Low(f.primitive, n) else 0)
  {
    var n := Log2(f.size);
    assert f.size == Pow2(n);
    assert n >= 1;
    assert Pow2(n) == 2 * Pow2(n - 1);
    SplitTop(x, n);
    var low := Low(x, n - 1);
    LowBound(x, n - 1);
    if Shr(x, n - 1) == 1 {
      assert x == Pow2(n - 1) + low;
      assert Step(f.primitive, f.size, x) == And(Xor(2 * x, f.primitive), Pow2(n) - 1);
      ReduceTop(f.primitive, n, x, low);
    } else {
      assert x == low;
      assert 2 * x < f.size;
      XorZero(2 * low);
    }
  }

  /** Reducing a doubled value whose top bit is set: the top bit drops out and the low polynomial bits are XOR-ed in. */
  lemma ReduceTop(p: nat, n: nat, x: nat, low: nat)
    requires n >= 1 && low < Pow2(n - 1) && x == Pow2(n - 1) + low
    ensures And(Xor(2 * x, p), Pow2(n) - 1) == Xor(2 * low, Low(p, n))
  {
    AndLowMask(Xor(2 * x, p), n);
    XorLow(2 * x, p, n);
    LowOfShifted(low, n);
  }

  /** Doubling and keeping n bits loses only the top bit. */
  lemma LowOfShifted(low: nat, n: nat)
    requires n >= 1 && low < Pow2(n - 1)
    ensures Low(2 * (Pow2(n - 1) + low), n) == 2 * low
  {
    LowDouble(Pow2(n - 1) + low, n);
    LowPlusPow(low, n - 1);
  }

  lemma {:induction false} LowPlusPow(low: nat, n: nat)
    requires low < Pow2(n)
    ensures Low(Pow2(n) + low, n) == low
  {
    if n == 0 {
    } else {
      var h := Pow2(n - 1);
      assert (Pow2(n) + low) / 2 == h + low / 2;
      assert (Pow2(n) + low) % 2 == low % 2;
      LowPlusPow(low / 2, n - 1);
    }
  }

  lemma {:induction false} StepPowLinear(f: Field, j: nat, a: nat, c: nat)
    requires Valid(f) && a < f.size && c < f.size
    ensures StepPow(f, j, a) < f.size && StepPow(f, j, c) < f.size
    ensures StepPow(f, j, Xor(a, c)) == Xor(StepPow(f, j, a), StepPow(f, j, c))
  {
    if j > 0 {
      StepPowLinear(f, j - 1, a, c);
      StepBound(f.primitive, f.size, StepPow(f, j - 1, a));
      StepBound(f.primitive, f.size, StepPow(f, j - 1, c));
      StepLinear(f, StepPow(f, j - 1, a), StepPow(f, j - 1, c));
    }
  }

  lemma {:induction false} StepPowZero(f: Field, j: nat)
    requires Valid(f)
    ensures StepPow(f, j, 0) == 0
  {
    if j > 0 {
      StepPowZero(f, j - 1);
    }
  }

  /** Stepping alpha^i j times gives alpha^(i + j), wrapped once around size - 1. */
  lemma StepPowExp(f: Field, i: nat, j: nat)
    requires Primitive(f) && i < f.size - 1 && j <= f.size - 1
    ensures StepPow(f, j, f.expTable[i])
         == f.expTable[if i + j < f.size - 1 then i + j else i + j - (f.size - 1)]
  {
    TablesStepPowExp(f, i, j);
  }

  /** StepPowExp for any tables built by doubling that wrap around to 1. */
  lemma {:induction false} TablesStepPowExp(f: Field, i: nat, j: nat)
    requires Valid(f) && f.expTable[0] == 1 && ExpDoubles(f) && f.expTable[f.size - 1] == 1
    requires i < f.size - 1 && j <= f.size - 1
    ensures StepPow(f, j, f.expTable[i])
         == f.expTable[if i + j < f.size - 1 then i + j else i + j - (f.size - 1)]
  {
    if j > 0 {
      var m := f.size - 1;
      TablesStepPowExp(f, i, j - 1);
      var k := if i + j - 1 < m then i + j - 1 else i + j - 1 - m;
      assert f.expTable[k + 1] == Step(f.primitive, f.size, f.expTable[k]);
    }
  }

  /** Multiplying by b is stepping log(b) times. */
  lemma MulIsStepPow(f: Field, a: nat, b: nat)
    requires Primitive(f) && a < f.size && 0 < b < f.size
    ensures Multiply(f, a, b) == StepPow(f, f.logTable[b], a)
  {
    if a == 0 {
      StepPowZero(f, f.logTable[b]);
    } else {
      ExpLog(f, a);
      ExpLog(f, b);
      MulExp(f, a, b);
      StepPowExp(f, f.logTable[a], f.logTable[b]);
    }
  }

  /** (a + c) * b == a * b + c * b: the law tables alone do not show, proved from the linearity of the doubling step. */
  lemma MulDistrib(f: Field, a: nat, c: nat, b: nat)
    requires Primitive(f) && a < f.size && c < f.size && b < f.size
    ensures Xor(a, c) < f.size
    ensures Multiply(f, Xor(a, c), b) == Xor(Multiply(f, a, b), Multiply(f, c, b))
  {
    XorBound(a, c, Log2(f.size));
    if b == 0 {
      XorZero(0);
    } else {
      MulIsStepPow(f, Xor(a, c), b);
      MulIsStepPow(f, a, b);
      MulIsStepPow(f, c, b);
      StepPowLinear(f, f.logTable[b], a, c);
    }
  }
}
