/** The formal derivative and the truncation to low degrees that the decoder applies to the
    error locator and to the product of syndromes and locator. */
module PolynomialTransforms {
  import opened Results
  import opened FieldArithmetic
  import opened Polynomials

  /** Entry k of the derivative's array: p_(k+1) for an odd exponent k + 1, zero for an even one. */
  function DerivativeEntry(p: seq<byte>, k: nat): byte {
    if (k + 1) % 2 == 1 then Coeff(p, k + 1) else 0
  }

  /** Polynomial.Derivative. A constant gives the zero polynomial; the zero polynomial itself
      has degree -1, so the result array would get length -1 (NegativeArraySize). */
  function Derivative(p: seq<byte>): (r: Result<seq<byte>>)
    ensures r.Ok? <==> p != []
    ensures r.Ok? ==> Trimmed(r.value) && |r.value| < |p|
  {
    if |p| - 1 == 0 then Ok(Trim([0]))
    else if |p| - 1 < 0 then Err(NegativeArraySize)
    else Ok(Trim(seq(|p| - 1, k requires 0 <= k => DerivativeEntry(p, k))))
  }

  /** In characteristic 2 the formal derivative keeps the odd-exponent coefficients, each moved
      down by one: coefficient k of p' is (k + 1) p_(k+1), that is p_(k+1) for even k and 0 for odd k. */
  lemma DerivativeCoeff(p: seq<byte>, k: nat)
    requires p != []
    ensures Coeff(Derivative(p).value, k) == if k % 2 == 0 then Coeff(p, k + 1) else 0
  {
    if |p| > 1 {
      TrimCoeff(seq(|p| - 1, k requires 0 <= k => DerivativeEntry(p, k)), k);
    }
  }

  /** The derivative is additive. */
  lemma DerivativeSum(p: seq<byte>, q: seq<byte>)
    requires p != [] && q != [] && Sum(p, q) != []
    ensures Derivative(Sum(p, q)).value == Sum(Derivative(p).value, Derivative(q).value)
  {
    var dp, dq, ds := Derivative(p).value, Derivative(q).value, Derivative(Sum(p, q)).value;
    forall k: nat
      ensures Coeff(ds, k) == Coeff(Sum(dp, dq), k)
    {
      DerivativeCoeff(Sum(p, q), k);
      DerivativeCoeff(p, k);
      DerivativeCoeff(q, k);
      SumCoeff(dp, dq, k);
      SumCoeff(p, q, k + 1);
      if k % 2 == 1 {
        AddZero(0);
      }
    }
    Extensionality(ds, Sum(dp, dq));
  }

  /** Differentiating twice gives zero in characteristic 2. */
  lemma DerivativeTwice(p: seq<byte>)
    requires p != [] && Derivative(p).value != []
    ensures Derivative(Derivative(p).value) == Ok([])
  {
    var d := Derivative(p).value;
    forall k: nat
      ensures Coeff(Derivative(d).value, k) == Coeff([], k)
    {
      DerivativeCoeff(d, k);
      DerivativeCoeff(p, k + 1);
    }
    Extensionality(Derivative(d).value, []);
  }

  /** Polynomial.DiscardHigherDegrees: the coefficients of degree at most maxDegree. A polynomial
      already of degree at most maxDegree is returned as it is; otherwise the array of
      maxDegree + 1 entries is negative for maxDegree < -1 (NegativeArraySize). */
  function DiscardHigherDegrees(p: seq<byte>, maxDegree: int): (r: Result<seq<byte>>)
    ensures r.Ok? <==> maxDegree >= -1
    ensures r.Ok? && Trimmed(p) ==> Trimmed(r.value)
  {
    if |p| - 1 <= maxDegree then Ok(p)
    else if maxDegree + 1 < 0 then Err(NegativeArraySize)
    else Ok(Trim(p[..maxDegree + 1]))
  }

  /** Discarding keeps exactly the coefficients of degree at most maxDegree. */
  lemma DiscardCoeff(p: seq<byte>, maxDegree: int, i: nat)
    requires maxDegree >= -1
    ensures Coeff(DiscardHigherDegrees(p, maxDegree).value, i) == if i <= maxDegree then Coeff(p, i) else 0
  {
    if |p| - 1 > maxDegree {
      TrimCoeff(p[..maxDegree + 1], i);
    }
  }

  /** Discarding twice at the same degree is discarding once. */
  lemma DiscardIdempotent(p: seq<byte>, maxDegree: int)
    requires maxDegree >= -1
    ensures DiscardHigherDegrees(DiscardHigherDegrees(p, maxDegree).value, maxDegree) == DiscardHigherDegrees(p, maxDegree)
  {
    var d := DiscardHigherDegrees(p, maxDegree).value;
    if |p| - 1 > maxDegree {
      assert |d| <= maxDegree + 1;
    }
  }

  /** Discarding is additive on trimmed polynomials. */
  lemma DiscardSum(p: seq<byte>, q: seq<byte>, maxDegree: int)
    requires Trimmed(p) && Trimmed(q) && maxDegree >= -1
    ensures DiscardHigherDegrees(Sum(p, q), maxDegree).value
         == Sum(DiscardHigherDegrees(p, maxDegree).value, DiscardHigherDegrees(q, maxDegree).value)
  {
    var dp, dq := DiscardHigherDegrees(p, maxDegree).value, DiscardHigherDegrees(q, maxDegree).value;
    var ds := DiscardHigherDegrees(Sum(p, q), maxDegree).value;
    forall i: nat
      ensures Coeff(ds, i) == Coeff(Sum(dp, dq), i)
    {
      DiscardCoeff(Sum(p, q), maxDegree, i);
      DiscardCoeff(p, maxDegree, i);
      DiscardCoeff(q, maxDegree, i);
      SumCoeff(dp, dq, i);
      SumCoeff(p, q, i);
      AddZero(0);
    }
    Extensionality(ds, Sum(dp, dq));
  }
}
