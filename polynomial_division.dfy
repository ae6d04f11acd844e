/** Long division of polynomials over GF(2^8), as Polynomial.Divide performs it: the remainder
    starts as the (trimmed) dividend and each round cancels its leading term with a scaled,
    shifted copy of the divisor, recording the scale in the quotient. */
module PolynomialDivision {
  import opened Results
  import opened FieldArithmetic
  import opened Polynomials
  import GaloisField

  /** The divisor shifted up by dd and scaled: scaledDivisor in the source. */
  function ScaledShift(b: seq<byte>, scale: byte, dd: nat): (s: seq<byte>)
    ensures |s| == dd + |b|
  {
    seq(dd + |b|, i requires 0 <= i => ShiftedEntry(b, scale, dd, i))
  }

  /** Entry i of scaledDivisor: zero below dd, divisor[i - dd] * scale from there on. */
  function ShiftedEntry(b: seq<byte>, scale: byte, dd: nat, i: nat): byte {
    if i < dd then 0 else Multiply(Coeff(b, i - dd), scale)
  }

  /** The while loop of Divide: quot is the quotient array filled so far, rem the remainder. */
  function DivLoop(rem: seq<byte>, b: seq<byte>, quot: seq<byte>): Result<(seq<byte>, seq<byte>)>
    requires Trimmed(rem) && |b| > 0 && |quot| > |rem| - |b|
    decreases |rem|
  {
    if |rem| < |b| then Ok((Trim(quot), rem))
    else
      var dd := |rem| - |b|;
      match GaloisField.Divide(rem[|rem| - 1], b[|b| - 1])
      case Err(e) => Err(e)
      case Ok(scale) => DivLoop(Reduced(rem, b, scale, dd), b, quot[dd := scale])
  }

  /** The remainder after one round: the scaled, shifted divisor added to it. */
  function Reduced(rem: seq<byte>, b: seq<byte>, scale: byte, dd: nat): (r: seq<byte>)
    requires Trimmed(rem) && |b| > 0 && |rem| == dd + |b|
    requires Multiply(scale, b[|b| - 1]) == rem[|rem| - 1]
    ensures Trimmed(r) && |r| < |rem|
  {
    LeadingCancels(rem, b, scale, dd);
    Sum(rem, Trim(ScaledShift(b, scale, dd)))
  }

  /** One round of the loop, unfolded: the quotient gains scale at the degree difference and
      the remainder loses its leading term. */
  lemma DivLoopUnfold(rem: seq<byte>, b: seq<byte>, quot: seq<byte>, scale: byte, dd: nat)
    requires Trimmed(rem) && |b| > 0 && |quot| > |rem| - |b| && |rem| >= |b| && dd == |rem| - |b|
    requires GaloisField.Divide(rem[|rem| - 1], b[|b| - 1]) == Ok(scale)
    ensures |Sum(rem, Trim(ScaledShift(b, scale, dd)))| < |rem|
    ensures DivLoop(rem, b, quot) == DivLoop(Sum(rem, Trim(ScaledShift(b, scale, dd))), b, quot[dd := scale])
  {
    var next := Reduced(rem, b, scale, dd);
  }

  /** A leading divisor coefficient the field cannot divide by ends the loop with its error. */
  lemma DivLoopFails(rem: seq<byte>, b: seq<byte>, quot: seq<byte>)
    requires Trimmed(rem) && |b| > 0 && |quot| > |rem| - |b| && |rem| >= |b|
    requires GaloisField.Divide(rem[|rem| - 1], b[|b| - 1]).Err?
    ensures DivLoop(rem, b, quot) == Err(GaloisField.Divide(rem[|rem| - 1], b[|b| - 1]).error)
  {
  }

  /** Polynomial.Divide: the quotient and remainder of a by b. A divisor of negative degree is
      rejected with DivisionByZero; a dividend so short that the quotient array would get a
      negative length fails with NegativeArraySize. */
  function DivRem(a: seq<byte>, b: seq<byte>): Result<(seq<byte>, seq<byte>)> {
    if |b| == 0 then Err(DivisionByZero)
    else if |a| - |b| + 1 < 0 then Err(NegativeArraySize)
    else DivLoop(Trim(a), b, seq(|a| - |b| + 1, _ => 0))
  }

  lemma ScaledShiftCoeff(b: seq<byte>, scale: byte, dd: nat, t: nat)
    ensures Coeff(ScaledShift(b, scale, dd), t) == if dd <= t then Multiply(Coeff(b, t - dd), scale) else 0
  {
    if dd + |b| <= t {
      MultiplyZeroLeft(scale);
    }
  }

  /** Adding the scaled divisor clears the remainder's leading coefficient. */
  lemma LeadingCancels(rem: seq<byte>, b: seq<byte>, scale: byte, dd: nat)
    requires Trimmed(rem) && |b| > 0 && |rem| == dd + |b|
    requires Multiply(scale, b[|b| - 1]) == rem[|rem| - 1]
    ensures |Sum(rem, Trim(ScaledShift(b, scale, dd)))| < |rem|
  {
    var s := ScaledShift(b, scale, dd);
    var r := Sum(rem, Trim(s));
    var top := |rem| - 1;
    forall i: nat | top <= i
      ensures Coeff(r, i) == 0
    {
      SumCoeff(rem, Trim(s), i);
      TrimCoeff(s, i);
      if i == top {
        MultiplyCommutes(scale, b[|b| - 1]);
        AddSelf(rem[top]);
      } else {
        AddZero(0);
      }
    }
    TrimmedLength(r, top);
  }

  /** Adding the same polynomial (in two spellings) to both summands changes nothing. */
  lemma SumCancelPair(a: seq<byte>, m: seq<byte>, r: seq<byte>, s: seq<byte>)
    requires forall t: nat :: Coeff(m, t) == Coeff(s, t)
    ensures Sum(Sum(a, m), Sum(r, s)) == Sum(a, r)
  {
    forall t: nat
      ensures Coeff(Sum(Sum(a, m), Sum(r, s)), t) == Coeff(Sum(a, r), t)
    {
      var at, mt, rt := Coeff(a, t), Coeff(m, t), Coeff(r, t);
      SumCoeff(Sum(a, m), Sum(r, s), t);
      SumCoeff(a, m, t);
      SumCoeff(r, s, t);
      SumCoeff(a, r, t);
      AddInterchange(at, mt, rt, mt);
      AddSelf(mt);
      AddZero(Add(at, rt));
    }
    Extensionality(Sum(Sum(a, m), Sum(r, s)), Sum(a, r));
  }

  /** The quotient entries the loop has not written yet, at and below the current degree
      difference, are zero. */
  predicate Unwritten(rem: seq<byte>, b: seq<byte>, quot: seq<byte>) {
    forall j :: 0 <= j < |quot| && j <= |rem| - |b| ==> quot[j] == 0
  }

  /** Writing scale at dd adds scale x^dd to the quotient. */
  lemma QuotientStep(quot: seq<byte>, dd: nat, scale: byte, b: seq<byte>)
    requires dd < |quot| && quot[dd] == 0
    ensures Mul(quot[dd := scale], b) == Sum(Mul(quot, b), Mul(Monomial(scale, dd), b))
  {
    var q2, m := quot[dd := scale], Monomial(scale, dd);
    forall i: nat
      ensures Coeff(q2, i) == Coeff(Sum(quot, m), i)
    {
      SumCoeff(quot, m, i);
      MonomialCoeff(scale, dd, i);
      AddZero(Coeff(quot, i));
    }
    MulAgree(q2, Sum(quot, m), b, b);
    MulDistributes(quot, m, b);
  }

  /** The monomial product and the source's scaled divisor are the same polynomial. */
  lemma ScaledShiftIsProduct(b: seq<byte>, scale: byte, dd: nat)
    ensures forall t: nat :: Coeff(Mul(Monomial(scale, dd), b), t) == Coeff(Trim(ScaledShift(b, scale, dd)), t)
  {
    forall t: nat
      ensures Coeff(Mul(Monomial(scale, dd), b), t) == Coeff(Trim(ScaledShift(b, scale, dd)), t)
    {
      MulMonomialLeft(scale, dd, b, t);
      TrimCoeff(ScaledShift(b, scale, dd), t);
      ScaledShiftCoeff(b, scale, dd, t);
      if dd <= t {
        MultiplyCommutes(scale, Coeff(b, t - dd));
      }
    }
  }

  /** One round keeps dividend == quotient * divisor + remainder. */
  lemma DivStep(a: seq<byte>, rem: seq<byte>, b: seq<byte>, quot: seq<byte>, scale: byte, dd: nat)
    requires dd < |quot| && quot[dd] == 0
    requires Sum(Mul(quot, b), rem) == a
    ensures Sum(Mul(quot[dd := scale], b), Sum(rem, Trim(ScaledShift(b, scale, dd)))) == a
  {
    var m := Mul(Monomial(scale, dd), b);
    QuotientStep(quot, dd, scale, b);
    ScaledShiftIsProduct(b, scale, dd);
    SumCancelPair(Mul(quot, b), m, rem, Trim(ScaledShift(b, scale, dd)));
  }

  /** The loop succeeds exactly when it never divides by a zero leading coefficient, and on
      success it keeps the division identity, leaving a remainder shorter than the divisor. */
  lemma {:induction false} DivLoopCorrect(a: seq<byte>, rem: seq<byte>, b: seq<byte>, quot: seq<byte>)
    requires Trimmed(rem) && |b| > 0 && |quot| > |rem| - |b|
    requires Sum(Mul(quot, b), rem) == a && Unwritten(rem, b, quot)
    ensures DivLoop(rem, b, quot).Ok? <==> |rem| < |b| || b[|b| - 1] != 0
    ensures DivLoop(rem, b, quot).Err? ==> DivLoop(rem, b, quot).error == DivisionByZero
    ensures DivLoop(rem, b, quot).Ok? ==>
      var (q, r) := DivLoop(rem, b, quot).value;
      Sum(Mul(q, b), r) == a && |r| < |b| && Trimmed(q) && Trimmed(r)
    decreases |rem|
  {
    if |rem| < |b| {
      MulTrim(quot, b);
    } else if b[|b| - 1] != 0 {
      var rem2, quot2 := DivRound(a, rem, b, quot);
      DivLoopCorrect(a, rem2, b, quot2);
    }
  }

  /** One round of the loop, for a divisor with a nonzero leading coefficient: the loop state
      moves to a strictly shorter remainder and keeps its invariants. */
  lemma DivRound(a: seq<byte>, rem: seq<byte>, b: seq<byte>, quot: seq<byte>) returns (rem2: seq<byte>, quot2: seq<byte>)
    requires Trimmed(rem) && |b| > 0 && |quot| > |rem| - |b| && |rem| >= |b| && b[|b| - 1] != 0
    requires Sum(Mul(quot, b), rem) == a && Unwritten(rem, b, quot)
    ensures Trimmed(rem2) && |rem2| < |rem| && |quot2| == |quot|
    ensures Sum(Mul(quot2, b), rem2) == a && Unwritten(rem2, b, quot2)
    ensures DivLoop(rem, b, quot) == DivLoop(rem2, b, quot2)
  {
    var dd := |rem| - |b|;
    var lead, top := rem[|rem| - 1], b[|b| - 1];
    var q := GaloisField.Divide(lead, top);
    var scale := q.value;
    var s := ScaledShift(b, scale, dd);
    rem2, quot2 := Sum(rem, Trim(s)), quot[dd := scale];
    DivLoopUnfold(rem, b, quot, scale, dd);
    DivStep(a, rem, b, quot, scale, dd);
  }

  /** Divide's contract: it fails on a zero divisor (DivisionByZero), on a dividend more than
      one shorter than the divisor (NegativeArraySize), and on a divisor with a zero leading
      entry that the loop reaches; otherwise dividend == quotient * divisor + remainder with
      deg remainder < deg divisor. */
  lemma DivRemCorrect(a: seq<byte>, b: seq<byte>)
    ensures DivRem(a, b).Ok? <==> |b| > 0 && |a| + 1 >= |b| && (|Trim(a)| < |b| || b[|b| - 1] != 0)
    ensures |b| == 0 ==> DivRem(a, b) == Err(DivisionByZero)
    ensures |b| > 0 && |a| + 1 < |b| ==> DivRem(a, b) == Err(NegativeArraySize)
    ensures DivRem(a, b).Ok? ==>
      var (q, r) := DivRem(a, b).value;
      Sum(Mul(q, b), r) == Trim(a) && |r| < |b| && Trimmed(q) && Trimmed(r)
  {
    if |b| > 0 && |a| + 1 >= |b| {
      var quot := seq(|a| - |b| + 1, _ => 0);
      forall t: nat
        ensures Coeff(Mul(quot, b), t) == Coeff([], t)
      {
        MulCoeff(quot, b, t);
        ConvOfZeros(quot, b, t, |quot|);
      }
      Extensionality(Mul(quot, b), []);
      SumZero(Trim(a));
      TrimTrimmed(Trim(a));
      DivLoopCorrect(Trim(a), Trim(a), b, quot);
    }
  }

  /** Division by a divisor with a nonzero leading coefficient succeeds whenever the quotient
      array gets a length, and then keeps the division identity. */
  lemma DivRemSucceeds(a: seq<byte>, b: seq<byte>)
    requires b != [] && b[|b| - 1] != 0 && |a| + 1 >= |b|
    ensures DivRem(a, b).Ok?
    ensures Sum(Mul(DivRem(a, b).value.0, b), DivRem(a, b).value.1) == Trim(a)
    ensures |DivRem(a, b).value.1| < |b| && Trimmed(DivRem(a, b).value.0) && Trimmed(DivRem(a, b).value.1)
  {
    DivRemCorrect(a, b);
  }

  lemma {:induction false} ConvOfZeros(p: seq<byte>, q: seq<byte>, t: nat, n: nat)
    requires forall i :: 0 <= i < |p| ==> p[i] == 0
    ensures Conv(p, q, t, n) == 0
  {
    if n > 0 {
      ConvOfZeros(p, q, t, n - 1);
      if n - 1 <= t {
        MultiplyZeroLeft(Coeff(q, t - (n - 1)));
      }
      AddZero(0);
    }
  }

  /** Quotient and remainder are unique: whatever pair satisfies the division identity with a
      remainder shorter than a trimmed divisor is the one Divide computes. */
  lemma DivisionUnique(b: seq<byte>, q1: seq<byte>, r1: seq<byte>, q2: seq<byte>, r2: seq<byte>)
    requires Trimmed(b) && b != [] && Trimmed(q1) && Trimmed(q2) && Trimmed(r1) && Trimmed(r2)
    requires |r1| < |b| && |r2| < |b|
    requires Sum(Mul(q1, b), r1) == Sum(Mul(q2, b), r2)
    ensures q1 == q2 && r1 == r2
  {
    var d := Sum(q1, q2);
    MulDistributes(q1, q2, b);
    forall t: nat
      ensures Coeff(Mul(d, b), t) == Coeff(Sum(r1, r2), t)
    {
      var a1, a2, c1, c2 := Coeff(Mul(q1, b), t), Coeff(Mul(q2, b), t), Coeff(r1, t), Coeff(r2, t);
      SumCoeff(Mul(q1, b), Mul(q2, b), t);
      SumCoeff(r1, r2, t);
      SumCoeff(Mul(q1, b), r1, t);
      SumCoeff(Mul(q2, b), r2, t);
      SwapSides(a1, c1, a2, c2);
    }
    Extensionality(Mul(d, b), Sum(r1, r2));
    if d != [] {
      MulDegree(d, b);
    }
    SumToZero(q1, q2);
    SumCancelEqual(Mul(q1, b), r1, r2);
  }

  /** a1 + c1 == a2 + c2 implies a1 + a2 == c1 + c2 (characteristic 2). */
  lemma SwapSides(a1: byte, c1: byte, a2: byte, c2: byte)
    requires Add(a1, c1) == Add(a2, c2)
    ensures Add(a1, a2) == Add(c1, c2)
  {
    AddInterchange(a1, c1, a2, c2);
    AddSelf(Add(a2, c2));
    AddCancel(Add(a1, a2), Add(c1, c2));
  }

  /** Two trimmed polynomials that sum to zero are equal. */
  lemma SumToZero(p: seq<byte>, q: seq<byte>)
    requires Trimmed(p) && Trimmed(q) && Sum(p, q) == []
    ensures p == q
  {
    forall i: nat
      ensures Coeff(p, i) == Coeff(q, i)
    {
      SumCoeff(p, q, i);
      AddCancel(Coeff(p, i), Coeff(q, i));
    }
    Extensionality(p, q);
  }

  lemma AddCancel(a: byte, b: byte)
    requires Add(a, b) == 0
    ensures a == b
  {
    AddAssociates(a, b, b);
    AddSelf(b);
    AddZero(a);
    AddZero(b);
  }

  /** The same polynomial added to two trimmed ones gives equal sums only if they are equal. */
  lemma SumCancelEqual(m: seq<byte>, r1: seq<byte>, r2: seq<byte>)
    requires Trimmed(r1) && Trimmed(r2) && Sum(m, r1) == Sum(m, r2)
    ensures r1 == r2
  {
    SumCommutes(m, r1);
    SumCommutes(m, r2);
    SumCancel(r1, m);
    SumCancel(r2, m);
  }

  /** Divide computes the unique quotient and remainder. */
  lemma DivRemUnique(a: seq<byte>, b: seq<byte>, q: seq<byte>, r: seq<byte>)
    requires Trimmed(b) && b != [] && |a| + 1 >= |b| && Trimmed(q) && Trimmed(r)
    ensures DivRem(a, b) == Ok((q, r)) <==> Sum(Mul(q, b), r) == Trim(a) && |r| < |b|
  {
    DivRemCorrect(a, b);
    if Sum(Mul(q, b), r) == Trim(a) && |r| < |b| {
      var (q1, r1) := DivRem(a, b).value;
      DivisionUnique(b, q, r, q1, r1);
    }
  }
}
