/** The Polynomial class: a coefficient array, lowest degree first, trimmed by the constructor
    and writable in place through the indexer. The operators build fresh arrays in loops and
    wrap them in new polynomials; each is proved to compute the value function of the same name
    in Polynomials, PolynomialDivision or PolynomialTransforms. */
module PolynomialObjects {
  import opened Results
  import opened FieldArithmetic
  import opened Polynomials
  import PolynomialDivision
  import PolynomialTransforms
  import GaloisField

  class Polynomial {
    /** Coefficients, the x^0 coefficient first. The reference never changes; the entries can. */
    const coefficients: array<byte>

    /** The coefficients as a value. */
    function Value(): seq<byte>
      reads coefficients
    {
      coefficients[..]
    }

    /** Stores the given coefficients without their trailing zeros. */
    constructor (cs: seq<byte>)
      ensures Value() == Trim(cs) && Trimmed(Value())
      ensures fresh(coefficients)
    {
      var t := Trim(cs);
      coefficients := new byte[|t|](i requires 0 <= i < |t| => t[i]);
    }

    /** Length - 1: the index of the leading coefficient, -1 for the zero polynomial. */
    function Degree(): (d: int)
      reads coefficients
      ensures d >= -1 && (d == -1 <==> Value() == [])
      ensures forall i: nat :: d < i ==> Coeff(Value(), i) == 0
      ensures Trimmed(Value()) && d >= 0 ==> Coeff(Value(), d) != 0
    {
      coefficients.Length - 1
    }

    /** The indexer's getter: the stored coefficient, 0 at or beyond the length. */
    function Get(degree: nat): (c: byte)
      reads coefficients
      ensures c == Coeff(Value(), degree)
    {
      if degree < coefficients.Length then coefficients[degree] else 0
    }

    /** The indexer's setter: overwrites one stored coefficient in place and does not re-trim. */
    method Set(degree: nat, value: byte)
      requires degree < coefficients.Length
      modifies coefficients
      ensures Value() == old(Value())[degree := value]
    {
      coefficients[degree] := value;
    }

    /** operator +. */
    static method Plus(p1: Polynomial, p2: Polynomial) returns (r: Polynomial)
      ensures fresh(r) && fresh(r.coefficients)
      ensures r.Value() == Sum(p1.Value(), p2.Value())
    {
      var maxDegree := if p1.Degree() < p2.Degree() then p2.Degree() else p1.Degree();
      var result := new byte[maxDegree + 1](_ => 0);
      for i := 0 to maxDegree + 1
        invariant forall j :: 0 <= j < i ==> result[j] == Add(p1.Get(j), p2.Get(j))
      {
        result[i] := Add(p1.Get(i), p2.Get(i));
      }
      ghost var p, q := p1.Value(), p2.Value();
      assert result[..] == seq(Max(|p|, |q|), i requires 0 <= i => Add(Coeff(p, i), Coeff(q, i)));
      r := new Polynomial(result[..]);
    }

    /** operator *. The result array has length deg p1 + deg p2 + 1, negative when both operands
        are zero (NegativeArraySize). */
    static method Times(p1: Polynomial, p2: Polynomial) returns (r: Result<Polynomial>)
      ensures r.Ok? <==> |p1.Value()| + |p2.Value()| > 0
      ensures r.Err? ==> r.error == NegativeArraySize
      ensures r.Ok? ==> fresh(r.value) && fresh(r.value.coefficients)
      ensures r.Ok? ==> r.value.Value() == Mul(p1.Value(), p2.Value())
    {
      var n := p1.Degree() + p2.Degree() + 1;
      if n < 0 {
        return Err(NegativeArraySize);
      }
      ghost var p, q := p1.Value(), p2.Value();
      var result := new byte[n](_ => 0);
      for i := 0 to p1.Degree() + 1
        invariant forall t :: 0 <= t < n ==> result[t] == Conv(p, q, t, i)
      {
        AddRow(p1, p2, result, i);
      }
      assert result[..] == seq(ProductLength(p, q), t requires 0 <= t => Conv(p, q, t, |p|));
      var product := new Polynomial(result[..]);
      return Ok(product);
    }

    /** The inner loop of operator *: adds p1[i] * p2[j] into result[i + j] for every j. */
    static method AddRow(p1: Polynomial, p2: Polynomial, result: array<byte>, i: nat)
      requires i < |p1.Value()| && result.Length == |p1.Value()| + |p2.Value()| - 1
      requires result != p1.coefficients && result != p2.coefficients
      requires forall t :: 0 <= t < result.Length ==> result[t] == Conv(p1.Value(), p2.Value(), t, i)
      modifies result
      ensures forall t :: 0 <= t < result.Length ==> result[t] == Conv(p1.Value(), p2.Value(), t, i + 1)
    {
      ghost var p, q := p1.Value(), p2.Value();
      for j := 0 to p2.Degree() + 1
        invariant forall t :: 0 <= t < result.Length ==>
          result[t] == if i <= t < i + j then Conv(p, q, t, i + 1) else Conv(p, q, t, i)
      {
        result[i + j] := Add(result[i + j], Multiply(p1.Get(i), p2.Get(j)));
      }
      forall t | 0 <= t < result.Length && !(i <= t < i + |q|)
        ensures Conv(p, q, t, i + 1) == Conv(p, q, t, i)
      {
        ConvIdle(p, q, t, i);
      }
    }

    /** Divide: the while loop cancels the remainder's leading term until its degree drops below
        the divisor's. */
    static method Divide(dividend: Polynomial, divisor: Polynomial) returns (r: Result<(Polynomial, Polynomial)>)
      ensures r.Ok? <==> PolynomialDivision.DivRem(dividend.Value(), divisor.Value()).Ok?
      ensures r.Err? ==> r.error == PolynomialDivision.DivRem(dividend.Value(), divisor.Value()).error
      ensures r.Ok? ==> fresh(r.value.0) && fresh(r.value.1)
      ensures r.Ok? ==> (r.value.0.Value(), r.value.1.Value()) == PolynomialDivision.DivRem(dividend.Value(), divisor.Value()).value
    {
      ghost var a, b := dividend.Value(), divisor.Value();
      ghost var expected := PolynomialDivision.DivRem(a, b);
      if divisor.Degree() < 0 {
        assert expected == Err(DivisionByZero);
        return Err(DivisionByZero);
      }
      var n := dividend.Degree() - divisor.Degree() + 1;
      if n < 0 {
        assert expected == Err(NegativeArraySize);
        return Err(NegativeArraySize);
      }
      r := DivideFrom(dividend, divisor, n);
    }

    /** The part of Divide after its checks: the quotient array of length n, the remainder as a
        copy of the dividend, and the loop. */
    static method DivideFrom(dividend: Polynomial, divisor: Polynomial, n: nat) returns (r: Result<(Polynomial, Polynomial)>)
      requires |divisor.Value()| > 0 && n == |dividend.Value()| - |divisor.Value()| + 1
      ensures r.Ok? ==> fresh(r.value.0) && fresh(r.value.1)
      ensures PolynomialDivision.DivLoop(Trim(dividend.Value()), divisor.Value(), seq(n, _ => 0)) ==
        if r.Ok? then Ok((r.value.0.Value(), r.value.1.Value())) else Err(r.error)
    {
      var quotient := new byte[n](_ => 0);
      var remainder := new Polynomial(dividend.coefficients[..]);
      assert quotient[..] == seq(n, _ => 0);
      r := DivideLoop(remainder, divisor, quotient);
      assert r.Ok? ==> fresh(r.value.1);
    }

    /** Divide's while loop: cancels the remainder's leading term until its degree drops below
        the divisor's, then wraps the quotient array in a polynomial. */
    static method DivideLoop(remainder: Polynomial, divisor: Polynomial, quotient: array<byte>)
      returns (r: Result<(Polynomial, Polynomial)>)
      requires remainder.coefficients != quotient && divisor.coefficients != quotient
      requires Trimmed(remainder.Value()) && |divisor.Value()| > 0
      requires quotient.Length > |remainder.Value()| - |divisor.Value()|
      modifies quotient
      ensures r.Err? ==> PolynomialDivision.DivLoop(old(remainder.Value()), divisor.Value(), old(quotient[..])) == Err(r.error)
      ensures r.Ok? ==> fresh(r.value.0) && (r.value.1 == remainder || fresh(r.value.1))
      ensures r.Ok? ==>
        PolynomialDivision.DivLoop(old(remainder.Value()), divisor.Value(), old(quotient[..]))
        == Ok((r.value.0.Value(), r.value.1.Value()))
    {
      ghost var b := divisor.Value();
      ghost var outcome := PolynomialDivision.DivLoop(remainder.Value(), b, quotient[..]);
      var current := remainder;
      while current.Degree() >= divisor.Degree()
        invariant current == remainder || (fresh(current) && fresh(current.coefficients))
        invariant current.coefficients != quotient
        invariant Trimmed(current.Value()) && quotient.Length > |current.Value()| - |b|
        invariant PolynomialDivision.DivLoop(current.Value(), b, quotient[..]) == outcome
        decreases |current.Value()|
      {
        var step := CancelLeading(current, divisor, quotient);
        if step.Err? {
          return Err(step.error);
        }
        current := step.value;
      }
      var q := new Polynomial(quotient[..]);
      return Ok((q, current));
    }

    /** One round of Divide's loop: divides the leading coefficients, records the quotient
        coefficient and adds the scaled, shifted divisor to the remainder. */
    static method CancelLeading(remainder: Polynomial, divisor: Polynomial, quotient: array<byte>) returns (r: Result<Polynomial>)
      requires remainder.coefficients != quotient && divisor.coefficients != quotient
      requires Trimmed(remainder.Value()) && |remainder.Value()| >= |divisor.Value()| > 0
      requires quotient.Length > |remainder.Value()| - |divisor.Value()|
      modifies quotient
      ensures r.Err? ==> PolynomialDivision.DivLoop(old(remainder.Value()), divisor.Value(), old(quotient[..])) == Err(r.error)
      ensures r.Ok? ==> fresh(r.value) && fresh(r.value.coefficients)
      ensures r.Ok? ==> Trimmed(r.value.Value()) && |r.value.Value()| < old(|remainder.Value()|)
      ensures r.Ok? ==>
        PolynomialDivision.DivLoop(r.value.Value(), divisor.Value(), quotient[..])
        == PolynomialDivision.DivLoop(old(remainder.Value()), divisor.Value(), old(quotient[..]))
    {
      ghost var rem, b, quot := remainder.Value(), divisor.Value(), quotient[..];
      var degreeDiff := remainder.Degree() - divisor.Degree();
      var top, lead := remainder.Get(remainder.Degree()), divisor.Get(divisor.Degree());
      assert top == rem[|rem| - 1] && lead == b[|b| - 1];
      var scaleResult := GaloisField.Divide(top, lead);
      if scaleResult.Err? {
        PolynomialDivision.DivLoopFails(rem, b, quot);
        return Err(scaleResult.error);
      }
      var scale := scaleResult.value;
      PolynomialDivision.DivLoopUnfold(rem, b, quot, scale, degreeDiff);
      ghost var next := Sum(rem, Trim(PolynomialDivision.ScaledShift(b, scale, degreeDiff)));
      ghost var quot2 := quot[degreeDiff := scale];
      assert PolynomialDivision.DivLoop(next, b, quot2) == PolynomialDivision.DivLoop(rem, b, quot) && |next| < |rem|;
      quotient[degreeDiff] := scale;
      var scaled := ScaledDivisor(divisor, scale, degreeDiff);
      var sum := Plus(remainder, scaled);
      assert sum.Value() == next;
      assert quotient[..] == quot2;
      return Ok(sum);
    }

    /** The loop body's scaledDivisor: the divisor times scale, shifted up by degreeDiff. */
    static method ScaledDivisor(divisor: Polynomial, scale: byte, degreeDiff: nat) returns (r: Polynomial)
      ensures fresh(r) && fresh(r.coefficients)
      ensures r.Value() == Trim(PolynomialDivision.ScaledShift(divisor.Value(), scale, degreeDiff))
    {
      var scaledDivisor := new byte[degreeDiff + divisor.coefficients.Length](_ => 0);
      for i := 0 to divisor.coefficients.Length
        invariant forall t :: 0 <= t < scaledDivisor.Length ==>
          scaledDivisor[t] == if degreeDiff <= t < degreeDiff + i then Multiply(divisor.Get(t - degreeDiff), scale) else 0
      {
        scaledDivisor[degreeDiff + i] := Multiply(divisor.Get(i), scale);
      }
      assert scaledDivisor[..] == PolynomialDivision.ScaledShift(divisor.Value(), scale, degreeDiff);
      r := new Polynomial(scaledDivisor[..]);
    }

    /** Derivative. */
    method Derivative() returns (r: Result<Polynomial>)
      ensures r.Ok? <==> PolynomialTransforms.Derivative(Value()).Ok?
      ensures r.Err? ==> r.error == NegativeArraySize
      ensures r.Ok? ==> fresh(r.value) && r.value.Value() == PolynomialTransforms.Derivative(Value()).value
    {
      if Degree() == 0 {
        var zero := new Polynomial([0]);
        return Ok(zero);
      }
      if Degree() < 0 {
        return Err(NegativeArraySize);
      }
      ghost var p := Value();
      var result := DerivativeCoefficients();
      assert result[..] == seq(|p| - 1, k requires 0 <= k => PolynomialTransforms.DerivativeEntry(p, k));
      var derivative := new Polynomial(result[..]);
      return Ok(derivative);
    }

    /** The loop of Derivative: result[i - 1] is coefficient i for odd i and zero for even i. */
    method DerivativeCoefficients() returns (result: array<byte>)
      requires Degree() >= 1
      ensures fresh(result)
      ensures result.Length == |Value()| - 1
      ensures forall k :: 0 <= k < result.Length ==> result[k] == PolynomialTransforms.DerivativeEntry(Value(), k)
    {
      ghost var p := Value();
      result := new byte[Degree()](_ => 0);
      for i := 1 to coefficients.Length
        invariant forall k :: 0 <= k < result.Length ==>
          result[k] == if k + 1 < i then PolynomialTransforms.DerivativeEntry(p, k) else 0
      {
        if i % 2 == 1 {
          result[i - 1] := coefficients[i];
        }
      }
    }

    /** DiscardHigherDegrees: a polynomial of degree at most maxDegree is returned itself, not
        a copy. */
    static method DiscardHigherDegrees(polynomial: Polynomial, maxDegree: int) returns (r: Result<Polynomial>)
      ensures r.Ok? <==> maxDegree >= -1
      ensures r.Err? ==> r.error == NegativeArraySize
      ensures r.Ok? ==> r.value.Value() == PolynomialTransforms.DiscardHigherDegrees(polynomial.Value(), maxDegree).value
      ensures r.Ok? && polynomial.Degree() <= maxDegree ==> r.value == polynomial
      ensures r.Ok? && polynomial.Degree() > maxDegree ==> fresh(r.value)
    {
      if polynomial.Degree() <= maxDegree {
        return Ok(polynomial);
      }
      if maxDegree + 1 < 0 {
        return Err(NegativeArraySize);
      }
      var truncated := new Polynomial(polynomial.coefficients[..maxDegree + 1]);
      return Ok(truncated);
    }

    /** Evaluate: Horner-free accumulation of coef * power, power running through x^0, x^1, ... */
    method Evaluate(x: byte) returns (r: byte)
      ensures r == Eval(Value(), x)
    {
      var result: byte := 0;
      var power: byte := 1;
      for i := 0 to coefficients.Length
        invariant result == EvalUpTo(Value(), x, i) && power == Power(x, i)
      {
        var t := Multiply(coefficients[i], power);
        EvalUpToStep(Value(), x, i + 1);
        result := Add(result, t);
        power := Multiply(power, x);
      }
      return result;
    }

    /** Equals: same degree and the same coefficient at every index; null is never equal. */
    method Equals(other: Polynomial?) returns (b: bool)
      ensures b <==> other != null && Value() == other.Value()
    {
      if other == null {
        return false;
      }
      if Degree() != other.Degree() {
        return false;
      }
      for i := 0 to Degree() + 1
        invariant forall j :: 0 <= j < i ==> coefficients[j] == other.coefficients[j]
      {
        if Get(i) != other.Get(i) {
          return false;
        }
      }
      assert Value() == other.Value();
      return true;
    }
  }
}
