/** The polynomial values the project's own tests expect (PolynomialTests.cs and the generator
    test of ReedSolomonTests.cs), proved from the definitions coefficient by coefficient. Each
    product of two bytes comes from the table of powers of alpha and each sum is computed bit by
    bit, one fact per lemma of ByteFacts. The lemmas for single coefficients name their factors
    entry by entry rather than as sequence displays, which keeps the solver from evaluating the
    convolution on literals by itself. */
module PolynomialVectors {
  import opened Results
  import opened FieldArithmetic
  import opened GaloisField
  import FieldPowers
  import opened Polynomials
  import PolynomialDivision
  import PolynomialTransforms
  import Encoding
  import SingleError
  import opened ByteFacts

  // ---------------------------------------------------------------------------------------
  // Reading a polynomial off its coefficients

  /** A product is known once every coefficient of its convolution is known. */
  lemma MulByCoefficients(p: seq<byte>, q: seq<byte>, r: seq<byte>)
    requires Trimmed(r) && |r| + 1 == |p| + |q|
    requires forall t :: 0 <= t < |r| ==> Conv(p, q, t, |p|) == r[t]
    ensures Mul(p, q) == r
  {
    forall t: nat
      ensures Coeff(Mul(p, q), t) == Coeff(r, t)
    {
      MulCoeff(p, q, t);
      if t >= |r| {
        ConvBeyond(p, q, t, |p|);
      }
    }
    Extensionality(Mul(p, q), r);
  }

  /** Coefficient t of q (a + x): q_t a + q_(t-1). */
  function LinearCoeff(q: seq<byte>, a: byte, t: nat): byte {
    Add(Multiply(Coeff(q, t), a), if t >= 1 then Coeff(q, t - 1) else 0)
  }

  /** A product with the monic linear factor a + x is known once every coefficient
      q_t a + q_(t-1) is known. */
  lemma MulByLinear(q: seq<byte>, a: byte, r: seq<byte>)
    requires Trimmed(r) && |r| == |q| + 1
    requires forall t :: 0 <= t < |r| ==> LinearCoeff(q, a, t) == r[t]
    ensures Mul(q, [a, 1]) == r
  {
    forall t: nat
      ensures Coeff(Mul(q, [a, 1]), t) == Coeff(r, t)
    {
      SingleError.MulLinearCoeff(q, a, 1, t);
      if t >= 1 {
        MultiplyOneRight(Coeff(q, t - 1));
      }
      if t < |r| {
        assert LinearCoeff(q, a, t) == r[t];
      } else {
        MultiplyZeroLeft(a);
        AddZero(0);
      }
    }
    Extensionality(Mul(q, [a, 1]), r);
  }

  /** Multiplying by x^k puts k zero coefficients in front. */
  lemma MulByPowerOfX(p: seq<byte>, s: seq<byte>, k: nat)
    requires Trimmed(p) && p != [] && s == Monomial(1, k)
    ensures Mul(p, s) == seq(k, _ => 0) + p
  {
    var r := seq(k, _ => 0) + p;
    forall t: nat
      ensures Coeff(Mul(p, s), t) == Coeff(r, t)
    {
      MulMonomialRight(p, 1, k, t);
      if k <= t {
        MultiplyOneRight(Coeff(p, t - k));
      }
    }
    Extensionality(Mul(p, s), r);
  }

  /** The constant 1 times a trimmed polynomial is that polynomial. */
  lemma MulByOne(one: seq<byte>, q: seq<byte>)
    requires one == [1] && Trimmed(q)
    ensures Mul(one, q) == q
  {
    assert one == Monomial(1, 0);
    forall t: nat
      ensures Coeff(Mul(one, q), t) == Coeff(q, t)
    {
      MulMonomialLeft(1, 0, q, t);
      MultiplyOneLeft(Coeff(q, t));
    }
    Extensionality(Mul(one, q), q);
  }

  /** A sum is known once every coefficient is known. */
  lemma SumByCoefficients(p: seq<byte>, q: seq<byte>, r: seq<byte>)
    requires Trimmed(r) && |r| <= |p| && |q| <= |p|
    requires forall i :: 0 <= i < |p| ==> Add(Coeff(p, i), Coeff(q, i)) == Coeff(r, i)
    ensures Sum(p, q) == r
  {
    forall i: nat
      ensures Coeff(Sum(p, q), i) == Coeff(r, i)
    {
      SumCoeff(p, q, i);
      if i >= |p| {
        AddZero(0);
      }
    }
    Extensionality(Sum(p, q), r);
  }

  // ---------------------------------------------------------------------------------------
  // PolynomialTests.cs

  /** p1 + p2 with p1 = 0x03 + 0x08 x + 0x0b x^2 + 0x07 x^3 and p2 = 0x13 + 0x06 x^2, both
      given to the constructor with all four coefficients. */
  lemma AddVector(p: seq<byte>, q: seq<byte>)
    requires p == [0x03, 0x08, 0x0b, 0x07] && q == [0x13, 0x00, 0x06, 0x00]
    ensures Sum(Trim(p), Trim(q)) == [0x10, 0x08, 0x0d, 0x07]
  {
    assert Trim(p) == p;
    assert Trim(q) == q[..3];
    Sum03And13(Coeff(p, 0), Coeff(q, 0));
    Sum0BAnd06(Coeff(p, 2), Coeff(q, 2));
    forall i | 0 <= i < 4
      ensures Add(Coeff(p, i), Coeff(q[..3], i)) == Coeff([0x10, 0x08, 0x0d, 0x07], i)
    {
      assert i == 0 || i == 1 || i == 2 || i == 3;
    }
    SumByCoefficients(p, q[..3], [0x10, 0x08, 0x0d, 0x07]);
  }

  lemma MultiplyVectorCoefficient0(p: seq<byte>, q: seq<byte>, r: seq<byte>, t: nat)
    requires |p| == 3 && p[0] == 0x08 && p[1] == 0x09 && p[2] == 0x02 && |q| == 2 && q[0] == 0x06 && q[1] == 0x0b && |r| == 4 && r[0] == 0x30 && r[1] == 0x6e && r[2] == 0x5f && r[3] == 0x16 && t == 0
    ensures Conv(p, q, t, 3) == r[t]
  {
    assert Coeff(p, 0) == 0x08 && Coeff(p, 1) == 0x09 && Coeff(p, 2) == 0x02 && Coeff(q, 0) == 0x06 && Coeff(q, 1) == 0x0b;
    Product08By06(Coeff(p, 0), Coeff(q, 0));
    assert Conv(p, q, 0, 1) == 0x30;
    assert Conv(p, q, 0, 2) == 0x30;
    assert Conv(p, q, 0, 3) == 0x30;
  }

  lemma MultiplyVectorCoefficient1(p: seq<byte>, q: seq<byte>, r: seq<byte>, t: nat)
    requires |p| == 3 && p[0] == 0x08 && p[1] == 0x09 && p[2] == 0x02 && |q| == 2 && q[0] == 0x06 && q[1] == 0x0b && |r| == 4 && r[0] == 0x30 && r[1] == 0x6e && r[2] == 0x5f && r[3] == 0x16 && t == 1
    ensures Conv(p, q, t, 3) == r[t]
  {
    assert Coeff(p, 0) == 0x08 && Coeff(p, 1) == 0x09 && Coeff(p, 2) == 0x02 && Coeff(q, 0) == 0x06 && Coeff(q, 1) == 0x0b;
    Product08By0B(Coeff(p, 0), Coeff(q, 1));
    assert Conv(p, q, 1, 1) == 0x58;
    Product09By06(Coeff(p, 1), Coeff(q, 0));
    Sum58And36(Conv(p, q, 1, 1), Term(p, q, 1, 1));
    assert Conv(p, q, 1, 2) == 0x6e;
    assert Conv(p, q, 1, 3) == 0x6e;
  }

  lemma MultiplyVectorCoefficient2(p: seq<byte>, q: seq<byte>, r: seq<byte>, t: nat)
    requires |p| == 3 && p[0] == 0x08 && p[1] == 0x09 && p[2] == 0x02 && |q| == 2 && q[0] == 0x06 && q[1] == 0x0b && |r| == 4 && r[0] == 0x30 && r[1] == 0x6e && r[2] == 0x5f && r[3] == 0x16 && t == 2
    ensures Conv(p, q, t, 3) == r[t]
  {
    assert Coeff(p, 0) == 0x08 && Coeff(p, 1) == 0x09 && Coeff(p, 2) == 0x02 && Coeff(q, 0) == 0x06 && Coeff(q, 1) == 0x0b;
    assert Conv(p, q, 2, 1) == 0x00;
    Product09By0B(Coeff(p, 1), Coeff(q, 1));
    assert Conv(p, q, 2, 2) == 0x53;
    Product02By06(Coeff(p, 2), Coeff(q, 0));
    Sum53And0C(Conv(p, q, 2, 2), Term(p, q, 2, 2));
    assert Conv(p, q, 2, 3) == 0x5f;
  }

  lemma MultiplyVectorCoefficient3(p: seq<byte>, q: seq<byte>, r: seq<byte>, t: nat)
    requires |p| == 3 && p[0] == 0x08 && p[1] == 0x09 && p[2] == 0x02 && |q| == 2 && q[0] == 0x06 && q[1] == 0x0b && |r| == 4 && r[0] == 0x30 && r[1] == 0x6e && r[2] == 0x5f && r[3] == 0x16 && t == 3
    ensures Conv(p, q, t, 3) == r[t]
  {
    assert Coeff(p, 0) == 0x08 && Coeff(p, 1) == 0x09 && Coeff(p, 2) == 0x02 && Coeff(q, 0) == 0x06 && Coeff(q, 1) == 0x0b;
    assert Conv(p, q, 3, 1) == 0x00;
    assert Conv(p, q, 3, 2) == 0x00;
    Product02By0B(Coeff(p, 2), Coeff(q, 1));
    assert Conv(p, q, 3, 3) == 0x16;
  }

  lemma MultiplyVectorCoefficientAt(p: seq<byte>, q: seq<byte>, r: seq<byte>, t: nat)
    requires |p| == 3 && p[0] == 0x08 && p[1] == 0x09 && p[2] == 0x02 && |q| == 2 && q[0] == 0x06 && q[1] == 0x0b && |r| == 4 && r[0] == 0x30 && r[1] == 0x6e && r[2] == 0x5f && r[3] == 0x16 && t < 4
    ensures Conv(p, q, t, 3) == r[t]
  {
    if t == 0 {
      MultiplyVectorCoefficient0(p, q, r, t);
    } else if t == 1 {
      MultiplyVectorCoefficient1(p, q, r, t);
    } else if t == 2 {
      MultiplyVectorCoefficient2(p, q, r, t);
    } else {
      MultiplyVectorCoefficient3(p, q, r, t);
    }
  }

  /** (0x08 + 0x09 x + 0x02 x^2) (0x06 + 0x0b x). */
  lemma MultiplyVector(p: seq<byte>, q: seq<byte>)
    requires p == [0x08, 0x09, 0x02] && q == [0x06, 0x0b]
    ensures Mul(p, q) == [0x30, 0x6e, 0x5f, 0x16]
  {
    var r := [0x30, 0x6e, 0x5f, 0x16];
    assert |p| == 3 && p[0] == 0x08 && p[1] == 0x09 && p[2] == 0x02 && |q| == 2 && q[0] == 0x06 && q[1] == 0x0b && |r| == 4 && r[0] == 0x30 && r[1] == 0x6e && r[2] == 0x5f && r[3] == 0x16;
    forall t | 0 <= t < 4
      ensures Conv(p, q, t, 3) == r[t]
    {
      MultiplyVectorCoefficientAt(p, q, r, t);
    }
    MulByCoefficients(p, q, r);
  }

  lemma DivideVectorProductCoefficient0(p: seq<byte>, q: seq<byte>, r: seq<byte>, t: nat)
    requires |p| == 2 && p[0] == 0xe8 && p[1] == 0x73 && |q| == 3 && q[0] == 0x06 && q[1] == 0x0b && q[2] == 0x07 && |r| == 4 && r[0] == 0x4a && r[1] == 0x01 && r[2] == 0x88 && r[3] == 0x44 && t == 0
    ensures Conv(p, q, t, 2) == r[t]
  {
    assert Coeff(p, 0) == 0xe8 && Coeff(p, 1) == 0x73 && Coeff(q, 0) == 0x06 && Coeff(q, 1) == 0x0b && Coeff(q, 2) == 0x07;
    ProductE8By06(Coeff(p, 0), Coeff(q, 0));
    assert Conv(p, q, 0, 1) == 0x4a;
    assert Conv(p, q, 0, 2) == 0x4a;
  }

  lemma DivideVectorProductCoefficient1(p: seq<byte>, q: seq<byte>, r: seq<byte>, t: nat)
    requires |p| == 2 && p[0] == 0xe8 && p[1] == 0x73 && |q| == 3 && q[0] == 0x06 && q[1] == 0x0b && q[2] == 0x07 && |r| == 4 && r[0] == 0x4a && r[1] == 0x01 && r[2] == 0x88 && r[3] == 0x44 && t == 1
    ensures Conv(p, q, t, 2) == r[t]
  {
    assert Coeff(p, 0) == 0xe8 && Coeff(p, 1) == 0x73 && Coeff(q, 0) == 0x06 && Coeff(q, 1) == 0x0b && Coeff(q, 2) == 0x07;
    ProductE8By0B(Coeff(p, 0), Coeff(q, 1));
    assert Conv(p, q, 1, 1) == 0x36;
    Product73By06(Coeff(p, 1), Coeff(q, 0));
    Sum36And37(Conv(p, q, 1, 1), Term(p, q, 1, 1));
    assert Conv(p, q, 1, 2) == 0x01;
  }

  lemma DivideVectorProductCoefficient2(p: seq<byte>, q: seq<byte>, r: seq<byte>, t: nat)
    requires |p| == 2 && p[0] == 0xe8 && p[1] == 0x73 && |q| == 3 && q[0] == 0x06 && q[1] == 0x0b && q[2] == 0x07 && |r| == 4 && r[0] == 0x4a && r[1] == 0x01 && r[2] == 0x88 && r[3] == 0x44 && t == 2
    ensures Conv(p, q, t, 2) == r[t]
  {
    assert Coeff(p, 0) == 0xe8 && Coeff(p, 1) == 0x73 && Coeff(q, 0) == 0x06 && Coeff(q, 1) == 0x0b && Coeff(q, 2) == 0x07;
    ProductE8By07(Coeff(p, 0), Coeff(q, 2));
    assert Conv(p, q, 2, 1) == 0xa2;
    Product73By0B(Coeff(p, 1), Coeff(q, 1));
    SumA2And2A(Conv(p, q, 2, 1), Term(p, q, 2, 1));
    assert Conv(p, q, 2, 2) == 0x88;
  }

  lemma DivideVectorProductCoefficient3(p: seq<byte>, q: seq<byte>, r: seq<byte>, t: nat)
    requires |p| == 2 && p[0] == 0xe8 && p[1] == 0x73 && |q| == 3 && q[0] == 0x06 && q[1] == 0x0b && q[2] == 0x07 && |r| == 4 && r[0] == 0x4a && r[1] == 0x01 && r[2] == 0x88 && r[3] == 0x44 && t == 3
    ensures Conv(p, q, t, 2) == r[t]
  {
    assert Coeff(p, 0) == 0xe8 && Coeff(p, 1) == 0x73 && Coeff(q, 0) == 0x06 && Coeff(q, 1) == 0x0b && Coeff(q, 2) == 0x07;
    assert Conv(p, q, 3, 1) == 0x00;
    Product73By07(Coeff(p, 1), Coeff(q, 2));
    assert Conv(p, q, 3, 2) == 0x44;
  }

  lemma DivideVectorProductCoefficientAt(p: seq<byte>, q: seq<byte>, r: seq<byte>, t: nat)
    requires |p| == 2 && p[0] == 0xe8 && p[1] == 0x73 && |q| == 3 && q[0] == 0x06 && q[1] == 0x0b && q[2] == 0x07 && |r| == 4 && r[0] == 0x4a && r[1] == 0x01 && r[2] == 0x88 && r[3] == 0x44 && t < 4
    ensures Conv(p, q, t, 2) == r[t]
  {
    if t == 0 {
      DivideVectorProductCoefficient0(p, q, r, t);
    } else if t == 1 {
      DivideVectorProductCoefficient1(p, q, r, t);
    } else if t == 2 {
      DivideVectorProductCoefficient2(p, q, r, t);
    } else {
      DivideVectorProductCoefficient3(p, q, r, t);
    }
  }

  /** The quotient of the division test times its divisor. */
  lemma DivideVectorProduct(p: seq<byte>, q: seq<byte>)
    requires p == [0xe8, 0x73] && q == [0x06, 0x0b, 0x07]
    ensures Mul(p, q) == [0x4a, 0x01, 0x88, 0x44]
  {
    var r := [0x4a, 0x01, 0x88, 0x44];
    assert |p| == 2 && p[0] == 0xe8 && p[1] == 0x73 && |q| == 3 && q[0] == 0x06 && q[1] == 0x0b && q[2] == 0x07 && |r| == 4 && r[0] == 0x4a && r[1] == 0x01 && r[2] == 0x88 && r[3] == 0x44;
    forall t | 0 <= t < 4
      ensures Conv(p, q, t, 2) == r[t]
    {
      DivideVectorProductCoefficientAt(p, q, r, t);
    }
    MulByCoefficients(p, q, r);
  }

  /** Divide(0x43 + 0x56 x + 0x88 x^2 + 0x44 x^3, 0x06 + 0x0b x + 0x07 x^2) gives the quotient
      0xe8 + 0x73 x and the remainder 0x09 + 0x57 x. */
  lemma DivideVector(a: seq<byte>, b: seq<byte>)
    requires a == [0x43, 0x56, 0x88, 0x44] && b == [0x06, 0x0b, 0x07]
    ensures PolynomialDivision.DivRem(a, b) == Ok(([0xe8, 0x73], [0x09, 0x57]))
  {
    var q, r := [0xe8, 0x73], [0x09, 0x57];
    DivideVectorProduct(q, b);
    var m := Mul(q, b);
    Sum4AAnd09(Coeff(m, 0), Coeff(r, 0));
    Sum01And57(Coeff(m, 1), Coeff(r, 1));
    forall i | 0 <= i < 4
      ensures Add(Coeff(m, i), Coeff(r, i)) == Coeff(a, i)
    {
      assert i == 0 || i == 1 || i == 2 || i == 3;
    }
    SumByCoefficients(m, r, a);
    PolynomialDivision.DivRemUnique(a, b, q, r);
  }

  /** (0x01 + 0x57 x) evaluated at 0x02. */
  lemma EvaluateVector(p: seq<byte>, x: byte)
    requires p == [0x01, 0x57] && x == 0x02
    ensures Eval(p, x) == 0xAF
  {
    FieldPowers.Alpha1(x);
    MultiplyOneRight(Coeff(p, 0));
    assert EvalUpTo(p, x, 1) == 0x01;
    Product57By02(Coeff(p, 1), Power(x, 1));
    Sum01AndAE(EvalUpTo(p, x, 1), Multiply(Coeff(p, 1), Power(x, 1)));
  }

  /** The derivative of 1 + 45 x + 165 x^2 + 198 x^3 + 140 x^4 + 223 x^5: in characteristic 2
      only the odd powers survive. */
  lemma DerivativeVector(p: seq<byte>)
    requires p == [1, 45, 165, 198, 140, 223]
    ensures PolynomialTransforms.Derivative(p) == Ok([45, 0, 198, 0, 223])
  {
    var r := [45, 0, 198, 0, 223];
    forall k: nat
      ensures Coeff(PolynomialTransforms.Derivative(p).value, k) == Coeff(r, k)
    {
      PolynomialTransforms.DerivativeCoeff(p, k);
      if k < 5 {
        assert k == 0 || k == 1 || k == 2 || k == 3 || k == 4;
      }
    }
    Extensionality(PolynomialTransforms.Derivative(p).value, r);
  }

  /** 7 + 12 x + 3 x^2 evaluated at 4: the two higher terms are equal and cancel. */
  lemma EvaluateConstantVector(p: seq<byte>, x: byte)
    requires p == [7, 12, 3] && x == 4
    ensures Eval(p, x) == 7
  {
    MultiplyOneLeft(x);
    assert Power(x, 1) == 4;
    Product04By04(Power(x, 1), x);
    assert Power(x, 2) == 16;
    MultiplyOneRight(Coeff(p, 0));
    assert EvalUpTo(p, x, 1) == 7;
    Product0CBy04(Coeff(p, 1), Power(x, 1));
    Sum07And30(EvalUpTo(p, x, 1), Multiply(Coeff(p, 1), Power(x, 1)));
    assert EvalUpTo(p, x, 2) == 0x37;
    Product03By10(Coeff(p, 2), Power(x, 2));
    Sum37And30(EvalUpTo(p, x, 2), Multiply(Coeff(p, 2), Power(x, 2)));
  }

  // ---------------------------------------------------------------------------------------
  // The generator polynomial (GenerateGeneratorPolynomial and the generator test of
  // ReedSolomonTests.cs)

  lemma GeneratorStep2Coefficient0(q: seq<byte>, a: byte)
    requires q == [0x02, 0x01] && a == 0x04
    ensures LinearCoeff(q, a, 0) == 0x08
  {
    Product02By04(Coeff(q, 0), a);
  }

  lemma GeneratorStep2Coefficient1(q: seq<byte>, a: byte)
    requires q == [0x02, 0x01] && a == 0x04
    ensures LinearCoeff(q, a, 1) == 0x06
  {
    Product01By04(Coeff(q, 1), a);
    Sum04And02(Multiply(Coeff(q, 1), a), Coeff(q, 0));
  }

  lemma GeneratorStep2Coefficient2(q: seq<byte>, a: byte)
    requires q == [0x02, 0x01] && a == 0x04
    ensures LinearCoeff(q, a, 2) == 0x01
  {
    MultiplyZeroLeft(a);
  }

  /** x + alpha^1 times x + alpha^2, where alpha^2 == 0x04. */
  lemma GeneratorStep2(q: seq<byte>, f: seq<byte>)
    requires q == [0x02, 0x01] && f == [0x04, 0x01]
    ensures Mul(q, f) == [0x08, 0x06, 0x01]
  {
    var a := f[0];
    GeneratorStep2Coefficient0(q, a);
    GeneratorStep2Coefficient1(q, a);
    GeneratorStep2Coefficient2(q, a);
    forall t | 0 <= t < 3
      ensures LinearCoeff(q, a, t) == [0x08, 0x06, 0x01][t]
    {
      assert t == 0 || t == 1 || t == 2;
    }
    MulByLinear(q, a, [0x08, 0x06, 0x01]);
  }

  lemma GeneratorStep3Coefficient0(q: seq<byte>, a: byte)
    requires q == [0x08, 0x06, 0x01] && a == 0x08
    ensures LinearCoeff(q, a, 0) == 0x40
  {
    Product08By08(Coeff(q, 0), a);
  }

  lemma GeneratorStep3Coefficient1(q: seq<byte>, a: byte)
    requires q == [0x08, 0x06, 0x01] && a == 0x08
    ensures LinearCoeff(q, a, 1) == 0x38
  {
    Product06By08(Coeff(q, 1), a);
    Sum30And08(Multiply(Coeff(q, 1), a), Coeff(q, 0));
  }

  lemma GeneratorStep3Coefficient2(q: seq<byte>, a: byte)
    requires q == [0x08, 0x06, 0x01] && a == 0x08
    ensures LinearCoeff(q, a, 2) == 0x0e
  {
    Product01By08(Coeff(q, 2), a);
    Sum08And06(Multiply(Coeff(q, 2), a), Coeff(q, 1));
  }

  lemma GeneratorStep3Coefficient3(q: seq<byte>, a: byte)
    requires q == [0x08, 0x06, 0x01] && a == 0x08
    ensures LinearCoeff(q, a, 3) == 0x01
  {
    MultiplyZeroLeft(a);
  }

  /** (x + alpha^1) ... (x + alpha^2) times x + alpha^3, where alpha^3 == 0x08. */
  lemma GeneratorStep3(q: seq<byte>, f: seq<byte>)
    requires q == [0x08, 0x06, 0x01] && f == [0x08, 0x01]
    ensures Mul(q, f) == [0x40, 0x38, 0x0e, 0x01]
  {
    var a := f[0];
    GeneratorStep3Coefficient0(q, a);
    GeneratorStep3Coefficient1(q, a);
    GeneratorStep3Coefficient2(q, a);
    GeneratorStep3Coefficient3(q, a);
    forall t | 0 <= t < 4
      ensures LinearCoeff(q, a, t) == [0x40, 0x38, 0x0e, 0x01][t]
    {
      assert t == 0 || t == 1 || t == 2 || t == 3;
    }
    MulByLinear(q, a, [0x40, 0x38, 0x0e, 0x01]);
  }

  lemma GeneratorStep4Coefficient0(q: seq<byte>, a: byte)
    requires q == [0x40, 0x38, 0x0e, 0x01] && a == 0x10
    ensures LinearCoeff(q, a, 0) == 0x74
  {
    Product40By10(Coeff(q, 0), a);
  }

  lemma GeneratorStep4Coefficient1(q: seq<byte>, a: byte)
    requires q == [0x40, 0x38, 0x0e, 0x01] && a == 0x10
    ensures LinearCoeff(q, a, 1) == 0xe7
  {
    Product38By10(Coeff(q, 1), a);
    SumA7And40(Multiply(Coeff(q, 1), a), Coeff(q, 0));
  }

  lemma GeneratorStep4Coefficient2(q: seq<byte>, a: byte)
    requires q == [0x40, 0x38, 0x0e, 0x01] && a == 0x10
    ensures LinearCoeff(q, a, 2) == 0xd8
  {
    Product0EBy10(Coeff(q, 2), a);
    SumE0And38(Multiply(Coeff(q, 2), a), Coeff(q, 1));
  }

  lemma GeneratorStep4Coefficient3(q: seq<byte>, a: byte)
    requires q == [0x40, 0x38, 0x0e, 0x01] && a == 0x10
    ensures LinearCoeff(q, a, 3) == 0x1e
  {
    Product01By10(Coeff(q, 3), a);
    Sum10And0E(Multiply(Coeff(q, 3), a), Coeff(q, 2));
  }

  lemma GeneratorStep4Coefficient4(q: seq<byte>, a: byte)
    requires q == [0x40, 0x38, 0x0e, 0x01] && a == 0x10
    ensures LinearCoeff(q, a, 4) == 0x01
  {
    MultiplyZeroLeft(a);
  }

  /** (x + alpha^1) ... (x + alpha^3) times x + alpha^4, where alpha^4 == 0x10. */
  lemma GeneratorStep4(q: seq<byte>, f: seq<byte>)
    requires q == [0x40, 0x38, 0x0e, 0x01] && f == [0x10, 0x01]
    ensures Mul(q, f) == [0x74, 0xe7, 0xd8, 0x1e, 0x01]
  {
    var a := f[0];
    GeneratorStep4Coefficient0(q, a);
    GeneratorStep4Coefficient1(q, a);
    GeneratorStep4Coefficient2(q, a);
    GeneratorStep4Coefficient3(q, a);
    GeneratorStep4Coefficient4(q, a);
    forall t | 0 <= t < 5
      ensures LinearCoeff(q, a, t) == [0x74, 0xe7, 0xd8, 0x1e, 0x01][t]
    {
      assert t == 0 || t == 1 || t == 2 || t == 3 || t == 4;
    }
    MulByLinear(q, a, [0x74, 0xe7, 0xd8, 0x1e, 0x01]);
  }

  /** The generator polynomial of degree 4, as the service builds it for four parity bytes. */
  lemma GeneratorVector(d: nat)
    requires d == 4
    ensures Encoding.Generator(d) == [0x74, 0xe7, 0xd8, 0x1e, 0x01]
  {
    var x := 2;
    FieldPowers.Alpha1(x);
    FieldPowers.Alpha2(x);
    FieldPowers.Alpha3(x);
    FieldPowers.Alpha4(x);
    ExpIsPower(x, d - 3);
    ExpIsPower(x, d - 2);
    ExpIsPower(x, d - 1);
    ExpIsPower(x, d);
    MulByOne(Encoding.Generator(d - 4), Encoding.Factor(d - 3));
    assert Encoding.Generator(d - 3) == [2, 1];
    GeneratorStep2(Encoding.Generator(d - 3), Encoding.Factor(d - 2));
    GeneratorStep3(Encoding.Generator(d - 2), Encoding.Factor(d - 1));
    GeneratorStep4(Encoding.Generator(d - 1), Encoding.Factor(d));
  }

  /** The generator test: (x + 0x02) (x + 0x04) (x + 0x08) (x + 0x10), multiplied left to right,
      then by x^4. */
  lemma GeneratorTestVector(f1: seq<byte>, f2: seq<byte>, f3: seq<byte>, f4: seq<byte>, s: seq<byte>)
    requires f1 == [0x02, 0x01] && f2 == [0x04, 0x01] && f3 == [0x08, 0x01] && f4 == [0x10, 0x01]
    requires s == [0x00, 0x00, 0x00, 0x00, 0x01]
    ensures Mul(Mul(Mul(Mul(f1, f2), f3), f4), s) == [0, 0, 0, 0, 116, 231, 216, 30, 1]
  {
    GeneratorStep2(f1, f2);
    GeneratorStep3(Mul(f1, f2), f3);
    GeneratorStep4(Mul(Mul(f1, f2), f3), f4);
    var g := Mul(Mul(Mul(f1, f2), f3), f4);
    assert s == Monomial(1, 4);
    MulByPowerOfX(g, s, 4);
    assert seq(4, _ => 0) + g == [0, 0, 0, 0, 116, 231, 216, 30, 1];
  }
}
