/** The encoding half of ReedSolomonCodeService on values: the generator polynomial
    g(x) = (x + alpha^1) ... (x + alpha^k) and the systematic encoder, which appends the message
    to the remainder of m(x) x^k modulo g. The encoder as written stores the message in a
    Polynomial, which drops its trailing zero bytes; EncodeAsWritten keeps that behaviour and
    Encode is the corrected encoder that the service uses. */
module Encoding {
  import opened Results
  import opened FieldArithmetic
  import opened Polynomials
  import GaloisField
  import PolynomialDivision

  /** x + alpha^i, as new Polynomial(Exp(i), 1) stores it. */
  function Factor(i: nat): (f: seq<byte>)
    ensures Trimmed(f) && |f| == 2 && f[1] == 1
  {
    [GaloisField.Exp(i), 1]
  }

  /** GenerateGeneratorPolynomial: new Polynomial(1) multiplied by x + alpha^i for
      i = 1 .. degree. The product is monic of the given degree. */
  function Generator(degree: nat): (g: seq<byte>)
    ensures Trimmed(g) && |g| == degree + 1 && g[degree] == 1
  {
    if degree == 0 then [1]
    else
      var h := Generator(degree - 1);
      MulDegree(h, Factor(degree));
      MultiplyOneLeft(1);
      Mul(h, Factor(degree))
  }

  /** The value of x + alpha^i at y. */
  lemma EvalFactor(i: nat, y: byte)
    ensures Eval(Factor(i), y) == Add(GaloisField.Exp(i), y)
  {
    var a := GaloisField.Exp(i);
    EvalUpToStep(Factor(i), y, 2);
    EvalUpToStep(Factor(i), y, 1);
    MultiplyOneRight(a);
    MultiplyOneLeft(y);
    MultiplyOneLeft(Power(y, 1));
    AddZero(a);
  }

  /** x + alpha^i vanishes exactly at alpha^i. */
  lemma FactorRoot(i: nat, y: byte)
    ensures Eval(Factor(i), y) == 0 <==> y == GaloisField.Exp(i)
  {
    EvalFactor(i, y);
    if Add(GaloisField.Exp(i), y) == 0 {
      PolynomialDivision.AddCancel(GaloisField.Exp(i), y);
    }
    AddSelf(y);
  }

  /** The generator of degree 0 is the constant 1. */
  lemma GeneratorZero(y: byte)
    ensures Eval(Generator(0), y) == 1
  {
    EvalUpToStep([1], y, 1);
    MultiplyOneLeft(1);
    AddZero(1);
  }

  /** Each factor multiplies the value of the generator. */
  lemma GeneratorStep(degree: nat, y: byte)
    requires degree >= 1
    ensures Eval(Generator(degree), y) == Multiply(Eval(Generator(degree - 1), y), Eval(Factor(degree), y))
  {
    EvalMul(Generator(degree - 1), Factor(degree), y);
  }

  /** The induction step of GeneratorRoots on bare values: v == vh * vf vanishes exactly when
      vh vanishes (y is one of alpha^1 .. alpha^(degree - 1)) or vf does (y is alpha^degree). */
  lemma RootsStep(degree: nat, y: byte, v: byte, vh: byte, vf: byte)
    requires degree >= 1 && v == Multiply(vh, vf)
    requires vh == 0 <==> exists j :: 1 <= j <= degree - 1 && y == GaloisField.Exp(j)
    requires vf == 0 <==> y == GaloisField.Exp(degree)
    ensures v == 0 <==> exists j :: 1 <= j <= degree && y == GaloisField.Exp(j)
  {
    GaloisField.NoZeroDivisors(vh, vf);
    if exists j :: 1 <= j <= degree && y == GaloisField.Exp(j) {
      var j :| 1 <= j <= degree && y == GaloisField.Exp(j);
      if j < degree {
        assert 1 <= j <= degree - 1 && y == GaloisField.Exp(j);
      }
    }
    if vh == 0 {
      var j :| 1 <= j <= degree - 1 && y == GaloisField.Exp(j);
      assert 1 <= j <= degree && y == GaloisField.Exp(j);
    }
    if vf == 0 {
      assert 1 <= degree <= degree && y == GaloisField.Exp(degree);
    }
  }

  /** The roots of the generator are exactly alpha^1 .. alpha^degree. */
  lemma {:induction false} GeneratorRoots(degree: nat, y: byte)
    ensures Eval(Generator(degree), y) == 0 <==> exists j :: 1 <= j <= degree && y == GaloisField.Exp(j)
  {
    if degree == 0 {
      GeneratorZero(y);
    } else {
      var d := degree - 1;
      var v, vh, vf := Eval(Generator(degree), y), Eval(Generator(d), y), Eval(Factor(degree), y);
      GeneratorStep(degree, y);
      GeneratorRoots(d, y);
      FactorRoot(degree, y);
      RootsStep(degree, y, v, vh, vf);
    }
  }

  /** m(x) x^k: the message polynomial (its trailing zeros dropped by the constructor) times the
      polynomial of k zero coefficients and a final 1. */
  function Shifted(k: nat, message: seq<byte>): seq<byte> {
    Mul(Trim(message), Monomial(1, k))
  }

  /** Multiplying by x^k moves every coefficient up by k. */
  lemma ShiftedCoeff(k: nat, message: seq<byte>, t: nat)
    ensures Coeff(Shifted(k, message), t) == if k <= t then Coeff(Trim(message), t - k) else 0
  {
    MulMonomialRight(Trim(message), 1, k, t);
    if k <= t {
      MultiplyOneRight(Coeff(Trim(message), t - k));
    }
  }

  /** The shifted message is zero for a zero message and k longer than the trimmed message
      otherwise. */
  lemma ShiftedLength(k: nat, message: seq<byte>)
    ensures Trim(message) == [] <==> Shifted(k, message) == []
    ensures Trim(message) != [] ==> |Shifted(k, message)| == |Trim(message)| + k
  {
    var m := Trim(message);
    if m == [] {
      forall t: nat
        ensures Coeff(Shifted(k, message), t) == Coeff([], t)
      {
        ShiftedCoeff(k, message, t);
      }
      Extensionality(Shifted(k, message), []);
    } else {
      MulDegree(m, Monomial(1, k));
    }
  }

  /** The parity symbols: the remainder of m(x) x^k modulo the generator, lowest degree first;
      the zero polynomial for a zero message. */
  function Parity(k: nat, message: seq<byte>): (p: seq<byte>)
    ensures Trimmed(p) && |p| <= k
  {
    var shifted, g := Shifted(k, message), Generator(k);
    if shifted == [] then []
    else
      ShiftedLength(k, message);
      PolynomialDivision.DivRemSucceeds(shifted, g);
      PolynomialDivision.DivRem(shifted, g).value.1
  }

  /** The quotient of m(x) x^k by the generator; the zero polynomial for a zero message. */
  function ParityQuotient(k: nat, message: seq<byte>): (q: seq<byte>)
    ensures Trimmed(q)
    ensures Sum(Mul(q, Generator(k)), Parity(k, message)) == Shifted(k, message)
  {
    var shifted, g := Shifted(k, message), Generator(k);
    if shifted == [] then
      MulZero(g);
      SumZero([]);
      []
    else
      ShiftedLength(k, message);
      PolynomialDivision.DivRemSucceeds(shifted, g);
      TrimTrimmed(shifted);
      PolynomialDivision.DivRem(shifted, g).value.0
  }

  /** remainder + m(x) x^k is a multiple of the generator. */
  lemma ParityCompletes(k: nat, message: seq<byte>)
    ensures Sum(Parity(k, message), Shifted(k, message)) == Mul(ParityQuotient(k, message), Generator(k))
  {
    SumCancel(Mul(ParityQuotient(k, message), Generator(k)), Parity(k, message));
  }

  /** Encode as written: an empty message is rejected (InvalidInput); otherwise the remainder of
      m(x) x^k modulo g is added to m(x) x^k and the coefficients of the sum are returned. A
      zero message reaches Divide with a zero dividend, whose quotient array would get a
      negative length (NegativeArraySize). */
  function EncodeAsWritten(k: nat, message: seq<byte>): Result<seq<byte>> {
    if |message| == 0 then Err(InvalidInput)
    else
      match PolynomialDivision.DivRem(Shifted(k, message), Generator(k))
      case Err(e) => Err(e)
      case Ok((_, remainder)) => Ok(Sum(remainder, Shifted(k, message)))
  }

  /** The parity bytes, padded to k. */
  function Pad(p: seq<byte>, n: nat): (r: seq<byte>)
    requires |p| <= n
    ensures |r| == n && r[..|p|] == p
    ensures forall i :: |p| <= i < n ==> r[i] == 0
  {
    p + seq(n - |p|, _ => 0)
  }

  /** The corrected encoder: the k parity bytes followed by the message exactly as given. */
  function Encode(k: nat, message: seq<byte>): (r: Result<seq<byte>>)
    ensures r.Ok? <==> message != []
    ensures r.Err? ==> r.error == InvalidInput
    ensures r.Ok? ==> |r.value| == |message| + k && r.value[k..] == message
  {
    if |message| == 0 then Err(InvalidInput)
    else Ok(Pad(Parity(k, message), k) + message)
  }

  /** The corrected codeword, read as a polynomial, is remainder + m(x) x^k. */
  lemma EncodeAsPolynomial(k: nat, message: seq<byte>)
    requires message != []
    ensures Trim(Encode(k, message).value) == Sum(Parity(k, message), Shifted(k, message))
  {
    var c := Encode(k, message).value;
    var p, s := Parity(k, message), Shifted(k, message);
    forall t: nat
      ensures Coeff(Trim(c), t) == Coeff(Sum(p, s), t)
    {
      TrimCoeff(c, t);
      SumCoeff(p, s, t);
      ShiftedCoeff(k, message, t);
      if t < k {
        assert Coeff(c, t) == Coeff(p, t);
        AddZero(Coeff(p, t));
      } else {
        var i := t - k;
        TrimCoeff(message, i);
        assert Coeff(c, t) == Coeff(message, i);
        AddZero(Coeff(message, i));
      }
    }
    Extensionality(Trim(c), Sum(p, s));
  }

  /** Every codeword is a multiple of the generator: Divide leaves a zero remainder. */
  lemma EncodeIsMultiple(k: nat, message: seq<byte>)
    requires message != []
    ensures Trim(Encode(k, message).value) == Mul(ParityQuotient(k, message), Generator(k))
    ensures PolynomialDivision.DivRem(Encode(k, message).value, Generator(k)) == Ok((ParityQuotient(k, message), []))
  {
    var c, g, q := Encode(k, message).value, Generator(k), ParityQuotient(k, message);
    EncodeAsPolynomial(k, message);
    ParityCompletes(k, message);
    SumZero(Mul(q, g));
    TrimTrimmed(Mul(q, g));
    PolynomialDivision.DivRemUnique(c, g, q, []);
  }

  /** Every syndrome alpha^1 .. alpha^k of a codeword is zero. */
  lemma CodewordRoots(k: nat, message: seq<byte>, j: nat)
    requires message != [] && 1 <= j <= k
    ensures Eval(Trim(Encode(k, message).value), GaloisField.Exp(j)) == 0
  {
    var q, g, y := ParityQuotient(k, message), Generator(k), GaloisField.Exp(j);
    EncodeIsMultiple(k, message);
    EvalMul(q, g, y);
    GeneratorRoots(k, y);
    MultiplyZeroRight(Eval(q, y));
  }

  /** Divide succeeds on the shifted form of a nonzero message, with the parity as remainder. */
  lemma DivideShifted(k: nat, message: seq<byte>)
    requires Trim(message) != []
    ensures PolynomialDivision.DivRem(Shifted(k, message), Generator(k)) == Ok((ParityQuotient(k, message), Parity(k, message)))
  {
    var g, s := Generator(k), Shifted(k, message);
    ShiftedLength(k, message);
    assert |s| >= k + 1;
    PolynomialDivision.DivRemSucceeds(s, g);
  }

  /** Encode as written fails exactly for a message with no nonzero byte: InvalidInput when it
      is empty, NegativeArraySize when it consists of zeros. */
  lemma EncodeAsWrittenFails(k: nat, message: seq<byte>)
    requires k >= 1
    ensures EncodeAsWritten(k, message).Err? <==> Trim(message) == []
    ensures message == [] ==> EncodeAsWritten(k, message) == Err(InvalidInput)
    ensures message != [] && Trim(message) == [] ==> EncodeAsWritten(k, message) == Err(NegativeArraySize)
  {
    if Trim(message) == [] {
      ShiftedLength(k, message);
      var g, s := Generator(k), Shifted(k, message);
      assert PolynomialDivision.DivRem(s, g) == Err(NegativeArraySize);
    } else {
      DivideShifted(k, message);
    }
  }

  /** On a message with a nonzero byte, Encode as written is the corrected encoder applied to
      the message without its trailing zeros. */
  lemma EncodeAsWrittenTrims(k: nat, message: seq<byte>)
    requires Trim(message) != []
    ensures EncodeAsWritten(k, message) == Encode(k, Trim(message))
  {
    var m := Trim(message);
    EncodeAsWrittenSum(k, message);
    EncodeTrimmedSum(k, m);
    TrimTrimmed(m);
    assert Shifted(k, m) == Shifted(k, message);
  }

  /** Encode as written on a message with a nonzero byte: the parity plus the shifted message. */
  lemma EncodeAsWrittenSum(k: nat, message: seq<byte>)
    requires Trim(message) != []
    ensures EncodeAsWritten(k, message) == Ok(Sum(Parity(k, message), Shifted(k, message)))
  {
    DivideShifted(k, message);
  }

  /** A message with a nonzero last byte encodes to a trimmed word: the parity plus the
      shifted message. */
  lemma EncodeTrimmedSum(k: nat, m: seq<byte>)
    requires m != [] && Trimmed(m)
    ensures Encode(k, m) == Ok(Sum(Parity(k, m), Shifted(k, m)))
  {
    var c := Encode(k, m).value;
    EncodeAsPolynomial(k, m);
    assert Trimmed(c) by {
      assert c[|c| - 1] == m[|m| - 1];
    }
    TrimTrimmed(c);
  }

  /** Encode as written on a message whose last byte is nonzero: the k parity bytes followed by
      the message. */
  lemma EncodeAsWrittenSystematic(k: nat, message: seq<byte>)
    requires message != [] && message[|message| - 1] != 0
    ensures EncodeAsWritten(k, message) == Ok(Pad(Parity(k, message), k) + message)
  {
    TrimTrimmed(message);
    EncodeAsWrittenTrims(k, message);
  }
}
