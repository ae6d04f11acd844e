/** Polynomials over GF(2^8) as the Polynomial class stores them: the coefficients lowest degree
    first, with the trailing zero coefficients dropped, so the zero polynomial is the empty
    sequence and the degree is the length minus one. Every operation is described through the
    coefficient view Coeff, which reads 0 past the stored length; two trimmed sequences with the
    same coefficients are equal (Extensionality), which is how the algebraic laws are proved. */
module Polynomials {
  import opened FieldArithmetic
  import GaloisField

  /** No trailing zero coefficient: the invariant the Polynomial constructor establishes. */
  predicate Trimmed(p: seq<byte>) {
    p == [] || p[|p| - 1] != 0
  }

  /** The constructor's normalisation: the coefficients with the trailing zeros removed. */
  function Trim(s: seq<byte>): (r: seq<byte>)
    ensures Trimmed(r) && |r| <= |s| && r == s[..|r|]
    ensures forall i :: |r| <= i < |s| ==> s[i] == 0
  {
    if s == [] || s[|s| - 1] != 0 then s else Trim(s[..|s| - 1])
  }

  /** The degree of p; the zero polynomial has degree -1. */
  function Degree(p: seq<byte>): int {
    |p| - 1
  }

  /** The indexer's getter: the coefficient of x^i, 0 at or beyond the stored length. */
  function Coeff(p: seq<byte>, i: nat): byte {
    if i < |p| then p[i] else 0
  }

  /** Trimming keeps every coefficient. */
  lemma TrimCoeff(s: seq<byte>, i: nat)
    ensures Coeff(Trim(s), i) == Coeff(s, i)
  {
  }

  /** A trimmed sequence is left alone by Trim. */
  lemma TrimTrimmed(s: seq<byte>)
    requires Trimmed(s)
    ensures Trim(s) == s
  {
  }

  /** A trimmed sequence whose coefficients vanish from n on is no longer than n. */
  lemma TrimmedLength(p: seq<byte>, n: nat)
    requires Trimmed(p) && forall i: nat :: n <= i ==> Coeff(p, i) == 0
    ensures |p| <= n
  {
    if p != [] {
      assert Coeff(p, |p| - 1) != 0;
    }
  }

  /** Two trimmed sequences with the same coefficients are the same polynomial. */
  lemma Extensionality(p: seq<byte>, q: seq<byte>)
    requires Trimmed(p) && Trimmed(q)
    requires forall i: nat :: Coeff(p, i) == Coeff(q, i)
    ensures p == q
  {
    TrimmedLength(p, |q|);
    TrimmedLength(q, |p|);
    assert forall i :: 0 <= i < |p| ==> Coeff(p, i) == p[i] && Coeff(q, i) == q[i];
  }

  /** Trimmed sequences are equal exactly when they have the same coefficients. */
  lemma SameCoefficients(p: seq<byte>, q: seq<byte>)
    requires Trimmed(p) && Trimmed(q)
    ensures p == q <==> forall i: nat :: Coeff(p, i) == Coeff(q, i)
  {
    if forall i: nat :: Coeff(p, i) == Coeff(q, i) {
      Extensionality(p, q);
    }
  }

  function Max(a: nat, b: nat): nat {
    if a < b then b else a
  }

  /** operator +: coefficient-wise addition up to the larger degree, then trimmed. */
  function Sum(p: seq<byte>, q: seq<byte>): (r: seq<byte>)
    ensures Trimmed(r) && |r| <= Max(|p|, |q|)
  {
    Trim(seq(Max(|p|, |q|), i requires 0 <= i => Add(Coeff(p, i), Coeff(q, i))))
  }

  lemma SumCoeff(p: seq<byte>, q: seq<byte>, i: nat)
    ensures Coeff(Sum(p, q), i) == Add(Coeff(p, i), Coeff(q, i))
  {
    var s := seq(Max(|p|, |q|), i requires 0 <= i => Add(Coeff(p, i), Coeff(q, i)));
    TrimCoeff(s, i);
    if i >= |s| {
      AddZero(0);
    }
  }

  lemma SumCommutes(p: seq<byte>, q: seq<byte>)
    ensures Sum(p, q) == Sum(q, p)
  {
    forall i: nat
      ensures Coeff(Sum(p, q), i) == Coeff(Sum(q, p), i)
    {
      SumCoeff(p, q, i);
      SumCoeff(q, p, i);
      AddCommutes(Coeff(p, i), Coeff(q, i));
    }
    Extensionality(Sum(p, q), Sum(q, p));
  }

  lemma SumAssociates(p: seq<byte>, q: seq<byte>, s: seq<byte>)
    ensures Sum(Sum(p, q), s) == Sum(p, Sum(q, s))
  {
    forall i: nat
      ensures Coeff(Sum(Sum(p, q), s), i) == Coeff(Sum(p, Sum(q, s)), i)
    {
      SumCoeff(Sum(p, q), s, i);
      SumCoeff(p, q, i);
      SumCoeff(p, Sum(q, s), i);
      SumCoeff(q, s, i);
      AddAssociates(Coeff(p, i), Coeff(q, i), Coeff(s, i));
    }
    Extensionality(Sum(Sum(p, q), s), Sum(p, Sum(q, s)));
  }

  /** p + p is the zero polynomial. */
  lemma SumSelf(p: seq<byte>)
    ensures Sum(p, p) == []
  {
    forall i: nat
      ensures Coeff(Sum(p, p), i) == Coeff([], i)
    {
      SumCoeff(p, p, i);
      AddSelf(Coeff(p, i));
    }
    Extensionality(Sum(p, p), []);
  }

  /** Adding the zero polynomial trims. */
  lemma SumZero(p: seq<byte>)
    ensures Sum(p, []) == Trim(p) && Sum([], p) == Trim(p)
  {
    forall i: nat
      ensures Coeff(Sum(p, []), i) == Coeff(Trim(p), i) && Coeff(Sum([], p), i) == Coeff(Trim(p), i)
    {
      SumCoeff(p, [], i);
      SumCoeff([], p, i);
      TrimCoeff(p, i);
      AddZero(Coeff(p, i));
    }
    Extensionality(Sum(p, []), Trim(p));
    Extensionality(Sum([], p), Trim(p));
  }

  /** q + p + q == p: the step that cancels a remainder added twice. */
  lemma SumCancel(p: seq<byte>, q: seq<byte>)
    requires Trimmed(p)
    ensures Sum(q, Sum(p, q)) == p
  {
    forall i: nat
      ensures Coeff(Sum(q, Sum(p, q)), i) == Coeff(p, i)
    {
      var a, b := Coeff(p, i), Coeff(q, i);
      SumCoeff(q, Sum(p, q), i);
      SumCoeff(p, q, i);
      AddCommutes(a, b);
      AddAssociates(b, b, a);
      AddSelf(b);
      AddZero(a);
    }
    Extensionality(Sum(q, Sum(p, q)), p);
  }

  /** The term p_i * q_(t - i) of the coefficient of x^t in a product (0 when i > t). */
  function Term(p: seq<byte>, q: seq<byte>, t: nat, i: nat): byte {
    if i <= t then Multiply(Coeff(p, i), Coeff(q, t - i)) else 0
  }

  /** The terms of the coefficient of x^t with i < n, added in increasing i. */
  function Conv(p: seq<byte>, q: seq<byte>, t: nat, n: nat): byte {
    if n == 0 then 0 else Add(Conv(p, q, t, n - 1), Term(p, q, t, n - 1))
  }

  /** The length of the array operator * allocates, deg p + deg q + 1, where it is not negative. */
  function ProductLength(p: seq<byte>, q: seq<byte>): nat {
    if |p| + |q| == 0 then 0 else |p| + |q| - 1
  }

  /** The ring product: the convolution of the coefficients, trimmed. */
  function Mul(p: seq<byte>, q: seq<byte>): (r: seq<byte>)
    ensures Trimmed(r) && |r| <= ProductLength(p, q)
  {
    Trim(seq(ProductLength(p, q), t requires 0 <= t => Conv(p, q, t, |p|)))
  }

  /** Terms past the stored length of p vanish. */
  lemma {:induction false} ConvExtend(p: seq<byte>, q: seq<byte>, t: nat, n: nat)
    requires n >= |p|
    ensures Conv(p, q, t, n) == Conv(p, q, t, |p|)
    decreases n
  {
    if n > |p| {
      ConvExtend(p, q, t, n - 1);
      if n - 1 <= t {
        MultiplyZeroLeft(Coeff(q, t - (n - 1)));
      }
      AddZero(Conv(p, q, t, n - 1));
    }
  }

  /** Row i of the product loop only touches the coefficients i .. i + |q| - 1. */
  lemma ConvIdle(p: seq<byte>, q: seq<byte>, t: nat, i: nat)
    requires t < i || i + |q| <= t
    ensures Conv(p, q, t, i + 1) == Conv(p, q, t, i)
  {
    if i <= t {
      MultiplyZeroRight(Coeff(p, i));
    }
    AddZero(Conv(p, q, t, i));
  }

  /** Coefficients of x^t past deg p + deg q vanish. */
  lemma {:induction false} ConvBeyond(p: seq<byte>, q: seq<byte>, t: nat, n: nat)
    requires n <= |p| && t + 1 >= |p| + |q|
    ensures Conv(p, q, t, n) == 0
  {
    if n > 0 {
      ConvBeyond(p, q, t, n - 1);
      if n - 1 <= t {
        MultiplyZeroRight(Coeff(p, n - 1));
      }
      AddZero(0);
    }
  }

  lemma MulCoeff(p: seq<byte>, q: seq<byte>, t: nat)
    ensures Coeff(Mul(p, q), t) == Conv(p, q, t, |p|)
  {
    var s := seq(ProductLength(p, q), t requires 0 <= t => Conv(p, q, t, |p|));
    TrimCoeff(s, t);
    if t >= |s| {
      ConvBeyond(p, q, t, |p|);
    }
  }

  /** The terms depend on the coefficients only. */
  lemma {:induction false} ConvAgree(p: seq<byte>, p2: seq<byte>, q: seq<byte>, q2: seq<byte>, t: nat, n: nat)
    requires forall i: nat :: Coeff(p, i) == Coeff(p2, i)
    requires forall i: nat :: Coeff(q, i) == Coeff(q2, i)
    ensures Conv(p, q, t, n) == Conv(p2, q2, t, n)
  {
    if n > 0 {
      ConvAgree(p, p2, q, q2, t, n - 1);
    }
  }

  /** The product depends on the coefficients of its operands only. */
  lemma MulAgree(p: seq<byte>, p2: seq<byte>, q: seq<byte>, q2: seq<byte>)
    requires forall i: nat :: Coeff(p, i) == Coeff(p2, i)
    requires forall i: nat :: Coeff(q, i) == Coeff(q2, i)
    ensures Mul(p, q) == Mul(p2, q2)
  {
    var n := Max(|p|, |p2|);
    forall t: nat
      ensures Coeff(Mul(p, q), t) == Coeff(Mul(p2, q2), t)
    {
      MulCoeff(p, q, t);
      MulCoeff(p2, q2, t);
      ConvExtend(p, q, t, n);
      ConvExtend(p2, q2, t, n);
      ConvAgree(p, p2, q, q2, t, n);
    }
    Extensionality(Mul(p, q), Mul(p2, q2));
  }

  /** Trimming an operand does not change the product. */
  lemma MulTrim(p: seq<byte>, q: seq<byte>)
    ensures Mul(Trim(p), q) == Mul(p, q) && Mul(p, Trim(q)) == Mul(p, q)
  {
    forall i: nat
      ensures Coeff(Trim(p), i) == Coeff(p, i) && Coeff(Trim(q), i) == Coeff(q, i)
    {
      TrimCoeff(p, i);
      TrimCoeff(q, i);
    }
    MulAgree(Trim(p), p, q, q);
    MulAgree(p, p, Trim(q), q);
  }

  lemma TermAddLeft(p1: seq<byte>, p2: seq<byte>, q: seq<byte>, t: nat, i: nat)
    ensures Term(Sum(p1, p2), q, t, i) == Add(Term(p1, q, t, i), Term(p2, q, t, i))
  {
    if i <= t {
      SumCoeff(p1, p2, i);
      MultiplyAddLeft(Coeff(p1, i), Coeff(p2, i), Coeff(q, t - i));
    } else {
      AddZero(0);
    }
  }

  /** The terms are additive in the left operand. */
  lemma {:induction false} ConvAddLeft(p1: seq<byte>, p2: seq<byte>, q: seq<byte>, t: nat, n: nat)
    ensures Conv(Sum(p1, p2), q, t, n) == Add(Conv(p1, q, t, n), Conv(p2, q, t, n))
  {
    if n > 0 {
      var i := n - 1;
      var a, b, c, d := Conv(p1, q, t, i), Conv(p2, q, t, i), Term(p1, q, t, i), Term(p2, q, t, i);
      ConvAddLeft(p1, p2, q, t, i);
      TermAddLeft(p1, p2, q, t, i);
      AddInterchange(a, b, c, d);
    } else {
      AddZero(0);
    }
  }

  /** Multiplication distributes over addition. */
  lemma MulDistributes(p1: seq<byte>, p2: seq<byte>, q: seq<byte>)
    ensures Mul(Sum(p1, p2), q) == Sum(Mul(p1, q), Mul(p2, q))
  {
    var n := Max(|p1|, |p2|);
    forall t: nat
      ensures Coeff(Mul(Sum(p1, p2), q), t) == Coeff(Sum(Mul(p1, q), Mul(p2, q)), t)
    {
      MulCoeff(Sum(p1, p2), q, t);
      MulCoeff(p1, q, t);
      MulCoeff(p2, q, t);
      SumCoeff(Mul(p1, q), Mul(p2, q), t);
      ConvExtend(Sum(p1, p2), q, t, n);
      ConvExtend(p1, q, t, n);
      ConvExtend(p2, q, t, n);
      ConvAddLeft(p1, p2, q, t, n);
    }
    Extensionality(Mul(Sum(p1, p2), q), Sum(Mul(p1, q), Mul(p2, q)));
  }

  /** c x^k, stored untrimmed (k zeros, then c). */
  function Monomial(c: byte, k: nat): (r: seq<byte>)
    ensures |r| == k + 1
  {
    seq(k, _ => 0) + [c]
  }

  lemma MonomialCoeff(c: byte, k: nat, i: nat)
    ensures Coeff(Monomial(c, k), i) == if i == k then c else 0
  {
  }

  lemma {:induction false} ConvMonomialLeft(c: byte, k: nat, q: seq<byte>, t: nat, n: nat)
    ensures Conv(Monomial(c, k), q, t, n) == if k < n && k <= t then Multiply(c, Coeff(q, t - k)) else 0
  {
    if n > 0 {
      var i := n - 1;
      ConvMonomialLeft(c, k, q, t, i);
      MonomialCoeff(c, k, i);
      if i <= t {
        MultiplyZeroLeft(Coeff(q, t - i));
      }
      AddZero(Conv(Monomial(c, k), q, t, i));
      AddZero(Term(Monomial(c, k), q, t, i));
    }
  }

  lemma {:induction false} ConvMonomialRight(p: seq<byte>, c: byte, k: nat, t: nat, n: nat)
    ensures Conv(p, Monomial(c, k), t, n) == if k <= t && t - k < n then Multiply(Coeff(p, t - k), c) else 0
  {
    if n > 0 {
      var i := n - 1;
      ConvMonomialRight(p, c, k, t, i);
      if i <= t {
        MonomialCoeff(c, k, t - i);
        MultiplyZeroRight(Coeff(p, i));
      }
      AddZero(Conv(p, Monomial(c, k), t, i));
      AddZero(Term(p, Monomial(c, k), t, i));
    }
  }

  /** (c x^k) * q shifts q up by k and scales it by c. */
  lemma MulMonomialLeft(c: byte, k: nat, q: seq<byte>, t: nat)
    ensures Coeff(Mul(Monomial(c, k), q), t) == if k <= t then Multiply(c, Coeff(q, t - k)) else 0
  {
    MulCoeff(Monomial(c, k), q, t);
    ConvMonomialLeft(c, k, q, t, k + 1);
  }

  /** p * (c x^k) shifts p up by k and scales it by c. */
  lemma MulMonomialRight(p: seq<byte>, c: byte, k: nat, t: nat)
    ensures Coeff(Mul(p, Monomial(c, k)), t) == if k <= t then Multiply(Coeff(p, t - k), c) else 0
  {
    MulCoeff(p, Monomial(c, k), t);
    ConvMonomialRight(p, c, k, t, |p|);
    if k <= t && t - k >= |p| {
      MultiplyZeroLeft(c);
    }
  }

  /** p with its top coefficient split off: p == init(p) + p_(n-1) x^(n-1), as products see it. */
  lemma MulSplitLast(p: seq<byte>, q: seq<byte>)
    requires p != []
    ensures Mul(p, q) == Sum(Mul(p[..|p| - 1], q), Mul(Monomial(p[|p| - 1], |p| - 1), q))
  {
    var k := |p| - 1;
    var init, m := p[..k], Monomial(p[k], k);
    forall i: nat
      ensures Coeff(Sum(init, m), i) == Coeff(p, i)
    {
      SumCoeff(init, m, i);
      MonomialCoeff(p[k], k, i);
      AddZero(Coeff(p, i));
    }
    MulAgree(Sum(init, m), p, q, q);
    MulDistributes(init, m, q);
  }

  /** The zero polynomial annihilates. */
  lemma MulZero(q: seq<byte>)
    ensures Mul([], q) == []
  {
    forall t: nat
      ensures Coeff(Mul([], q), t) == Coeff([], t)
    {
      MulCoeff([], q, t);
    }
    Extensionality(Mul([], q), []);
  }

  /** Evaluate's accumulation over the first n coefficients: the sum of p_i * x^i for i < n,
      added in increasing i. */
  function EvalUpTo(p: seq<byte>, x: byte, n: nat): byte {
    if n == 0 then 0 else Add(EvalUpTo(p, x, n - 1), Multiply(Coeff(p, n - 1), Power(x, n - 1)))
  }

  /** The value of p at x. */
  function Eval(p: seq<byte>, x: byte): byte {
    EvalUpTo(p, x, |p|)
  }

  /** One step of the accumulation. */
  lemma EvalUpToStep(p: seq<byte>, x: byte, n: nat)
    requires n > 0
    ensures EvalUpTo(p, x, n) == Add(EvalUpTo(p, x, n - 1), Multiply(Coeff(p, n - 1), Power(x, n - 1)))
  {
  }

  lemma {:induction false} EvalAgree(p: seq<byte>, p2: seq<byte>, x: byte, n: nat)
    requires forall i: nat :: i < n ==> Coeff(p, i) == Coeff(p2, i)
    ensures EvalUpTo(p, x, n) == EvalUpTo(p2, x, n)
  {
    if n > 0 {
      EvalAgree(p, p2, x, n - 1);
    }
  }

  /** Coefficients past the stored length add nothing. */
  lemma {:induction false} EvalExtend(p: seq<byte>, x: byte, n: nat)
    requires n >= |p|
    ensures EvalUpTo(p, x, n) == Eval(p, x)
  {
    if n > |p| {
      EvalExtend(p, x, n - 1);
      MultiplyZeroLeft(Power(x, n - 1));
      AddZero(EvalUpTo(p, x, n - 1));
    }
  }

  /** Trimming keeps the value. */
  lemma EvalTrim(s: seq<byte>, x: byte)
    ensures Eval(Trim(s), x) == Eval(s, x)
  {
    forall i: nat | i < |s|
      ensures Coeff(Trim(s), i) == Coeff(s, i)
    {
      TrimCoeff(s, i);
    }
    EvalAgree(Trim(s), s, x, |s|);
    EvalExtend(Trim(s), x, |s|);
  }

  lemma {:induction false} EvalUpToSum(p: seq<byte>, q: seq<byte>, x: byte, n: nat)
    ensures EvalUpTo(Sum(p, q), x, n) == Add(EvalUpTo(p, x, n), EvalUpTo(q, x, n))
  {
    if n > 0 {
      var i := n - 1;
      var a, b, c, d := EvalUpTo(p, x, i), EvalUpTo(q, x, i),
        Multiply(Coeff(p, i), Power(x, i)), Multiply(Coeff(q, i), Power(x, i));
      EvalUpToSum(p, q, x, i);
      SumCoeff(p, q, i);
      MultiplyAddLeft(Coeff(p, i), Coeff(q, i), Power(x, i));
      AddInterchange(a, b, c, d);
    } else {
      AddZero(0);
    }
  }

  /** Evaluation is additive. */
  lemma EvalSum(p: seq<byte>, q: seq<byte>, x: byte)
    ensures Eval(Sum(p, q), x) == Add(Eval(p, x), Eval(q, x))
  {
    var n := Max(|p|, |q|);
    EvalUpToSum(p, q, x, n);
    EvalExtend(Sum(p, q), x, n);
    EvalExtend(p, x, n);
    EvalExtend(q, x, n);
  }

  lemma {:induction false} EvalZeroPrefix(s: seq<byte>, x: byte, k: nat)
    requires forall i: nat :: i < k ==> Coeff(s, i) == 0
    ensures EvalUpTo(s, x, k) == 0
  {
    if k > 0 {
      EvalZeroPrefix(s, x, k - 1);
      MultiplyZeroLeft(Power(x, k - 1));
      AddZero(0);
    }
  }

  /** One step of EvalShifted: x^k distributes over both terms. */
  lemma ShiftStep(pk: byte, e: byte, rj: byte, pj: byte)
    ensures Add(Multiply(pk, e), Multiply(rj, Multiply(pk, pj))) == Multiply(pk, Add(e, Multiply(rj, pj)))
  {
    MultiplyAddRight(pk, e, Multiply(rj, pj));
    MultiplyAssociates(rj, pk, pj);
    MultiplyCommutes(rj, pk);
    MultiplyAssociates(pk, rj, pj);
  }

  /** A polynomial whose coefficients are those of r shifted up by k has the value x^k r(x). */
  lemma {:induction false} EvalShifted(s: seq<byte>, k: nat, r: seq<byte>, x: byte, n: nat)
    requires forall t: nat :: t < k ==> Coeff(s, t) == 0
    requires forall t: nat :: Coeff(s, k + t) == Coeff(r, t)
    ensures EvalUpTo(s, x, k + n) == Multiply(Power(x, k), EvalUpTo(r, x, n))
  {
    if n == 0 {
      EvalZeroPrefix(s, x, k);
      MultiplyZeroRight(Power(x, k));
    } else {
      var j := n - 1;
      var e, rj, pk, pj := EvalUpTo(r, x, j), Coeff(r, j), Power(x, k), Power(x, j);
      var m := k + j;
      EvalShifted(s, k, r, x, j);
      EvalUpToStep(s, x, m + 1);
      EvalUpToStep(r, x, n);
      assert Coeff(s, m) == rj;
      PowerAdd(x, k, j);
      ShiftStep(pk, e, rj, pj);
      assert EvalUpTo(s, x, m + 1) == Add(Multiply(pk, e), Multiply(rj, Multiply(pk, pj)));
    }
  }

  /** c * q, coefficient by coefficient. */
  function Scale(c: byte, q: seq<byte>): (r: seq<byte>)
    ensures |r| == |q|
  {
    seq(|q|, i requires 0 <= i < |q| => Multiply(c, q[i]))
  }

  lemma ScaleCoeff(c: byte, q: seq<byte>, t: nat)
    ensures Coeff(Scale(c, q), t) == Multiply(c, Coeff(q, t))
  {
    if t >= |q| {
      MultiplyZeroRight(c);
    }
  }

  lemma {:induction false} EvalUpToScale(c: byte, q: seq<byte>, x: byte, n: nat)
    ensures EvalUpTo(Scale(c, q), x, n) == Multiply(c, EvalUpTo(q, x, n))
  {
    if n == 0 {
      MultiplyZeroRight(c);
    } else {
      var j := n - 1;
      var e, qj, pj := EvalUpTo(q, x, j), Coeff(q, j), Power(x, j);
      EvalUpToScale(c, q, x, j);
      EvalUpToStep(Scale(c, q), x, n);
      EvalUpToStep(q, x, n);
      ScaleCoeff(c, q, j);
      MultiplyAssociates(c, qj, pj);
      MultiplyAddRight(c, e, Multiply(qj, pj));
    }
  }

  /** Rearranges x^k (c q(x)) into (c x^k) q(x). */
  lemma MonomialFactor(c: byte, pk: byte, v: byte)
    ensures Multiply(pk, Multiply(c, v)) == Multiply(Multiply(c, pk), v)
  {
    MultiplyAssociates(pk, c, v);
    MultiplyCommutes(pk, c);
  }

  lemma EvalMulMonomial(c: byte, k: nat, q: seq<byte>, x: byte)
    ensures Eval(Mul(Monomial(c, k), q), x) == Multiply(Multiply(c, Power(x, k)), Eval(q, x))
  {
    var s, r := Mul(Monomial(c, k), q), Scale(c, q);
    forall t: nat | t < k
      ensures Coeff(s, t) == 0
    {
      MulMonomialLeft(c, k, q, t);
    }
    forall t: nat
      ensures Coeff(s, k + t) == Coeff(r, t)
    {
      MulMonomialLeft(c, k, q, k + t);
      ScaleCoeff(c, q, t);
    }
    var n, pk, v := |q|, Power(x, k), Eval(q, x);
    EvalUpToScale(c, q, x, n);
    var w := EvalUpTo(r, x, n);
    assert w == Multiply(c, v);
    EvalShifted(s, k, r, x, n);
    EvalExtend(s, x, k + n);
    MonomialFactor(c, pk, v);
    assert Eval(s, x) == Multiply(pk, w);
  }

  /** Evaluation is multiplicative: (p * q)(x) == p(x) * q(x). */
  lemma {:induction false} EvalMul(p: seq<byte>, q: seq<byte>, x: byte)
    ensures Eval(Mul(p, q), x) == Multiply(Eval(p, x), Eval(q, x))
    decreases |p|
  {
    if p == [] {
      MulZero(q);
      MultiplyZeroLeft(Eval(q, x));
    } else {
      var k := |p| - 1;
      var init, c := p[..k], p[k];
      var a, b := Mul(init, q), Mul(Monomial(c, k), q);
      MulSplitLast(p, q);
      EvalSum(a, b, x);
      EvalMul(init, q, x);
      EvalMulMonomial(c, k, q, x);
      var ei, m, eq := Eval(init, x), Multiply(c, Power(x, k)), Eval(q, x);
      EvalUpToStep(p, x, |p|);
      EvalAgree(p, init, x, k);
      assert Eval(p, x) == Add(ei, m);
      MultiplyAddLeft(ei, m, eq);
    }
  }

  lemma {:induction false} ConvBelowTop(p: seq<byte>, q: seq<byte>, t: nat, n: nat)
    requires n < |p| && t + 2 == |p| + |q|
    ensures Conv(p, q, t, n) == 0
  {
    if n > 0 {
      ConvBelowTop(p, q, t, n - 1);
      MultiplyZeroRight(Coeff(p, n - 1));
      AddZero(0);
    }
  }

  /** The product of nonzero trimmed polynomials has degree deg p + deg q: the leading
      coefficients multiply to a nonzero byte, since the field has no zero divisors. */
  lemma MulDegree(p: seq<byte>, q: seq<byte>)
    requires Trimmed(p) && Trimmed(q) && p != [] && q != []
    ensures |Mul(p, q)| == |p| + |q| - 1
    ensures Mul(p, q)[|p| + |q| - 2] == Multiply(p[|p| - 1], q[|q| - 1])
  {
    var t, k := |p| + |q| - 2, |p| - 1;
    var lead := Multiply(p[k], q[|q| - 1]);
    ConvBelowTop(p, q, t, k);
    AddZero(lead);
    GaloisField.NoZeroDivisors(p[k], q[|q| - 1]);
    MulCoeff(p, q, t);
    assert Coeff(Mul(p, q), t) == lead;
  }
}
