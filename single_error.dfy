/** One corrupted byte. A received word that differs from a codeword in the byte at position p,
    by a nonzero error value v, has the polynomial c(x) + v x^p. With X == alpha^p and at least
    two parity symbols, the stages of the decoder compute: the syndromes v X^1 .. v X^k, the
    locator 1 + X x, the single error position p, the error evaluator v X, the derivative X of
    the locator and the magnitude v. The correction then restores the codeword, provided that p
    is an index of the word it is applied to. */
module SingleError {
  import opened Results
  import opened FieldArithmetic
  import opened Polynomials
  import GaloisField
  import PolynomialTransforms
  import PolynomialDivision
  import Encoding
  import opened Decoding

  // ---------------------------------------------------------------------------------------
  // Powers of X == alpha^p

  /** X^n for X == alpha^p. */
  function XPow(p: nat, n: nat): byte {
    GaloisField.Exp(p * n)
  }

  lemma XPowAdd(p: nat, a: nat, b: nat)
    ensures Multiply(XPow(p, a), XPow(p, b)) == XPow(p, a + b)
  {
    Distributes(p, a, b);
    GaloisField.ExpAdd(p * a, p * b);
  }

  lemma Distributes(p: nat, a: nat, b: nat)
    ensures p * a + p * b == p * (a + b)
  {
  }

  lemma XPowOne(p: nat)
    ensures XPow(p, 1) == GaloisField.Exp(p)
  {
    assert p * 1 == p;
  }

  /** (alpha^j)^n == alpha^(j n). */
  lemma {:induction false} PowerOfExp(j: nat, n: nat)
    ensures Power(GaloisField.Exp(j), n) == GaloisField.Exp(j * n)
  {
    if n == 0 {
      assert j * n == 0;
    } else {
      var m := n - 1;
      PowerOfExp(j, m);
      var y := GaloisField.Exp(j);
      assert Power(y, n) == Multiply(Power(y, m), y);
      ExpStepUp(j, m, n);
    }
  }

  lemma ExpStepUp(j: nat, m: nat, n: nat)
    requires n == m + 1
    ensures Multiply(GaloisField.Exp(j * m), GaloisField.Exp(j)) == GaloisField.Exp(j * n)
  {
    ProductStep(j, m, n);
    GaloisField.ExpAdd(j * m, j);
  }

  lemma ProductStep(j: nat, m: nat, n: nat)
    requires n == m + 1
    ensures j * m + j == j * n
  {
  }

  // ---------------------------------------------------------------------------------------
  // The received word and its syndromes

  /** The word c with the error value v added to its byte at position p. */
  function Corrupt(c: seq<byte>, p: nat, v: byte): (r: seq<byte>)
    requires p < |c|
    ensures |r| == |c| && r[p] == Add(c[p], v)
    ensures forall i :: 0 <= i < |c| && i != p ==> r[i] == c[i]
  {
    c[p := Add(c[p], v)]
  }

  /** The value of v x^p at y is v y^p. */
  lemma EvalMonomial(v: byte, p: nat, y: byte)
    ensures Eval(Monomial(v, p), y) == Multiply(v, Power(y, p))
  {
    var e := Monomial(v, p);
    forall i: nat | i < p
      ensures Coeff(e, i) == 0
    {
      MonomialCoeff(v, p, i);
    }
    EvalZeroPrefix(e, y, p);
    EvalUpToStep(e, y, p + 1);
    MonomialCoeff(v, p, p);
    AddZero(Multiply(v, Power(y, p)));
  }

  /** The syndromes of a single error v x^p: v X^1, v X^2, ... */
  predicate SingleSyndromes(s: seq<byte>, v: byte, p: nat) {
    forall i :: 0 <= i < |s| ==> s[i] == Multiply(v, XPow(p, i + 1))
  }

  /** Syndrome i of v x^p is v X^(i + 1). */
  lemma ErrorSyndromes(k: nat, v: byte, p: nat)
    ensures SingleSyndromes(Syndromes(k, Monomial(v, p)), v, p)
  {
    forall i | 0 <= i < k
      ensures Syndromes(k, Monomial(v, p))[i] == Multiply(v, XPow(p, i + 1))
    {
      var y := GaloisField.Exp(i + 1);
      SyndromeAt(k, Monomial(v, p), i, y);
      EvalMonomial(v, p, y);
      PowerOfExp(i + 1, p);
      assert (i + 1) * p == p * (i + 1);
    }
  }

  /** The polynomial of the corrupted word is that of the word plus v x^p. */
  lemma CorruptPolynomial(c: seq<byte>, p: nat, v: byte)
    requires p < |c|
    ensures Trim(Corrupt(c, p, v)) == Sum(Trim(c), Monomial(v, p))
  {
    var r := Corrupt(c, p, v);
    var e := Monomial(v, p);
    forall i: nat
      ensures Coeff(Trim(r), i) == Coeff(Sum(Trim(c), e), i)
    {
      TrimCoeff(r, i);
      TrimCoeff(c, i);
      SumCoeff(Trim(c), e, i);
      MonomialCoeff(v, p, i);
      AddZero(Coeff(c, i));
    }
    Extensionality(Trim(r), Sum(Trim(c), e));
  }

  /** A word with zero syndromes, corrupted at one position, has the syndromes of the error
      alone, whether or not it is trimmed first. */
  lemma CorruptSyndromes(k: nat, c: seq<byte>, p: nat, v: byte)
    requires p < |c| && AllZero(Syndromes(k, Trim(c)))
    ensures Syndromes(k, Trim(Corrupt(c, p, v))) == Syndromes(k, Monomial(v, p))
    ensures Syndromes(k, Corrupt(c, p, v)) == Syndromes(k, Monomial(v, p))
    ensures SingleSyndromes(Syndromes(k, Corrupt(c, p, v)), v, p)
  {
    CorruptPolynomial(c, p, v);
    SyndromesOfError(k, Trim(c), Monomial(v, p));
    SyndromesTrim(k, Corrupt(c, p, v));
    ErrorSyndromes(k, v, p);
  }

  /** Each syndrome of a single error is X times the one before it. */
  lemma NextSyndrome(s: seq<byte>, v: byte, p: nat, i: nat)
    requires SingleSyndromes(s, v, p) && 1 <= i < |s|
    ensures Multiply(GaloisField.Exp(p), s[i - 1]) == s[i]
  {
    var x, w := XPow(p, 1), XPow(p, i);
    XPowOne(p);
    XPowAdd(p, 1, i);
    MultiplyAssociates(x, v, w);
    MultiplyAssociates(v, x, w);
    MultiplyCommutes(x, v);
  }

  // ---------------------------------------------------------------------------------------
  // Small polynomials

  /** A trimmed polynomial times a nonzero constant: every coefficient scaled. */
  lemma MulConstant(q: seq<byte>, c: byte)
    requires Trimmed(q) && c != 0
    ensures Mul(q, [c]) == Scale(c, q)
  {
    assert [c] == Monomial(c, 0);
    forall t: nat
      ensures Coeff(Mul(q, [c]), t) == Coeff(Scale(c, q), t)
    {
      MulMonomialRight(q, c, 0, t);
      ScaleCoeff(c, q, t);
      MultiplyCommutes(c, Coeff(q, t));
    }
    if q != [] {
      GaloisField.NoZeroDivisors(c, q[|q| - 1]);
    }
    Extensionality(Mul(q, [c]), Scale(c, q));
  }

  /** A nonzero trimmed polynomial times x: every coefficient one place up. */
  lemma MulX(q: seq<byte>)
    requires Trimmed(q) && q != []
    ensures Mul(q, [0, 1]) == [0] + q
  {
    assert [0, 1] == Monomial(1, 1);
    forall t: nat
      ensures Coeff(Mul(q, [0, 1]), t) == Coeff([0] + q, t)
    {
      MulMonomialRight(q, 1, 1, t);
      if t >= 1 {
        MultiplyOneRight(Coeff(q, t - 1));
      } else {
        MultiplyZeroLeft(1);
      }
    }
    Extensionality(Mul(q, [0, 1]), [0] + q);
  }

  /** a + b x plus the constant c. */
  lemma SumConstant(a: byte, b: byte, c: byte)
    requires b != 0
    ensures Sum([a, b], [c]) == [Add(a, c), b]
  {
    forall t: nat
      ensures Coeff(Sum([a, b], [c]), t) == Coeff([Add(a, c), b], t)
    {
      SumCoeff([a, b], [c], t);
      AddZero(b);
      AddZero(0);
    }
    Extensionality(Sum([a, b], [c]), [Add(a, c), b]);
  }

  /** a + b x plus c x. */
  lemma SumLinear(a: byte, b: byte, c: byte)
    requires Add(b, c) != 0
    ensures Sum([a, b], [0, c]) == [a, Add(b, c)]
  {
    forall t: nat
      ensures Coeff(Sum([a, b], [0, c]), t) == Coeff([a, Add(b, c)], t)
    {
      SumCoeff([a, b], [0, c], t);
      AddZero(a);
      AddZero(0);
    }
    Extensionality(Sum([a, b], [0, c]), [a, Add(b, c)]);
  }

  /** The value of the constant c is c. */
  lemma EvalConstant(c: byte, y: byte)
    ensures Eval([c], y) == c
  {
    EvalUpToStep([c], y, 1);
    MultiplyOneRight(c);
    AddZero(c);
  }

  /** The value of a + b x at y. */
  lemma EvalLinear(a: byte, b: byte, y: byte)
    ensures Eval([a, b], y) == Add(a, Multiply(b, y))
  {
    EvalUpToStep([a, b], y, 2);
    EvalUpToStep([a, b], y, 1);
    MultiplyOneRight(a);
    AddZero(a);
    assert Power(y, 1) == Multiply(Power(y, 0), y);
    MultiplyOneLeft(y);
  }

  /** The terms of coefficient t of q (a + b x) with i < n. */
  lemma {:induction false} ConvLinear(q: seq<byte>, a: byte, b: byte, t: nat, n: nat)
    ensures Conv(q, [a, b], t, n) ==
      Add(if t < n then Multiply(Coeff(q, t), a) else 0,
          if 1 <= t && t - 1 < n then Multiply(Coeff(q, t - 1), b) else 0)
  {
    if n == 0 {
      AddZero(0);
    } else {
      var i := n - 1;
      ConvLinear(q, a, b, t, i);
      var A := Multiply(Coeff(q, t), a);
      var B := if t >= 1 then Multiply(Coeff(q, t - 1), b) else 0;
      if i == t {
        AddZero(B);
        AddZero(A);
        AddCommutes(B, A);
      } else if i + 1 == t {
        AddZero(0);
        AddZero(B);
      } else {
        if i <= t {
          MultiplyZeroRight(Coeff(q, i));
        }
        AddZero(Conv(q, [a, b], t, i));
      }
    }
  }

  /** Coefficient t of q (a + b x) is q_t a + q_(t-1) b. */
  lemma MulLinearCoeff(q: seq<byte>, a: byte, b: byte, t: nat)
    ensures Coeff(Mul(q, [a, b]), t) ==
      Add(Multiply(Coeff(q, t), a), if t >= 1 then Multiply(Coeff(q, t - 1), b) else 0)
  {
    MulCoeff(q, [a, b], t);
    ConvLinear(q, a, b, t, |q|);
    MultiplyZeroLeft(a);
    MultiplyZeroLeft(b);
  }

  // ---------------------------------------------------------------------------------------
  // The error locator

  /** The products of the first round. */
  lemma FirstRoundProducts(one: seq<byte>, d0: byte, e0: byte)
    requires one == [1] && d0 != 0 && Multiply(d0, e0) == 1
    ensures Mul(one, [0, 1]) == [0, 1] && Mul([0, 1], [d0]) == [0, d0]
    ensures e0 != 0 && Mul(one, [e0]) == [e0] && Mul([e0], [d0]) == one
  {
    MultiplyZeroRight(d0);
    MulX(one);
    MulConstant([0, 1], d0);
    MultiplyOneRight(d0);
    assert Scale(d0, [0, 1]) == [0, d0];
    MulConstant(one, e0);
    MultiplyOneRight(e0);
    assert Scale(e0, one) == [e0];
    MulConstant([e0], d0);
    assert Scale(d0, [e0]) == one;
  }

  /** The first round: from the locator 1 the discrepancy d0 != 0 gives 1 + d0 x, and the
      previous locator becomes the constant 1 / d0. */
  lemma FirstRound(one: seq<byte>, d0: byte)
    requires one == [1] && d0 != 0
    ensures Round(one, one, d0) == ([1, d0], [GaloisField.Inverse(d0).value])
  {
    var e0 := GaloisField.Inverse(d0).value;
    FirstRoundProducts(one, d0, e0);
    SumConstant(0, d0, 1);
    AddZero(1);
  }

  /** The discrepancy of a locator a + b x at step i >= 1. */
  lemma DeltaLinear(loc: seq<byte>, a: byte, b: byte, s: seq<byte>, i: nat)
    requires loc == [a, b] && 1 <= i < |s|
    ensures Delta(loc, s, i) == Add(s[i], Multiply(b, s[i - 1]))
  {
    assert DeltaUpTo(loc, s, i, 1) == s[i];
    assert Coeff(loc, 1) == b;
  }

  /** The field identity behind the second round: (v X^2 + d0^2) / d0 == X + d0 for d0 == v X. */
  lemma SecondDiscrepancy(v: byte, x: byte, x2: byte, d0: byte, e0: byte, d1: byte)
    requires d0 == Multiply(v, x) && Multiply(d0, e0) == 1 && x2 == Multiply(x, x)
    requires d1 == Add(Multiply(v, x2), Multiply(d0, d0))
    ensures Multiply(d1, e0) == Add(x, d0)
  {
    MultiplyAddLeft(Multiply(v, x2), Multiply(d0, d0), e0);
    MultiplyAssociates(d0, d0, e0);
    MultiplyOneRight(d0);
    MultiplyAssociates(v, x, x);
    MultiplyAssociates(d0, x, e0);
    MultiplyCommutes(x, e0);
    MultiplyAssociates(d0, e0, x);
    MultiplyOneLeft(x);
  }

  /** The second round, with the identity above: whether or not d1 is zero the locator becomes
      1 + X x and the previous locator e0 x. */
  lemma RoundTwo(loc: seq<byte>, prev: seq<byte>, x: byte, d0: byte, e0: byte, d1: byte)
    requires loc == [1, d0] && prev == [e0] && x != 0 && e0 != 0
    requires Multiply(d1, e0) == Add(x, d0)
    ensures Round(loc, prev, d1) == ([1, x], [0, e0])
  {
    MulX(prev);
    assert Mul(prev, [0, 1]) == [0, e0];
    if d1 == 0 {
      MultiplyZeroLeft(e0);
      PolynomialDivision.AddCancel(x, d0);
    } else {
      MulConstant([0, e0], d1);
      MultiplyZeroRight(d1);
      assert Scale(d1, [0, e0]) == [0, Add(x, d0)];
      AddCommutes(x, d0);
      AddAssociates(d0, d0, x);
      AddSelf(d0);
      AddZero(x);
      SumLinear(1, d0, Add(x, d0));
    }
  }

  /** The first two syndromes of a single error: v X and v X^2. */
  lemma FirstSyndromes(s: seq<byte>, v: byte, p: nat)
    requires SingleSyndromes(s, v, p) && |s| >= 2
    ensures var x := GaloisField.Exp(p);
      s[0] == Multiply(v, x) && s[1] == Multiply(v, Multiply(x, x))
  {
    XPowOne(p);
    XPowAdd(p, 1, 1);
  }

  /** The discrepancy of the second round, over the constant of the first, is X + d0. */
  lemma SecondRound(s: seq<byte>, v: byte, p: nat)
    requires SingleSyndromes(s, v, p) && |s| >= 2 && v != 0
    ensures s[0] != 0 && GaloisField.Inverse(s[0]).Ok? && GaloisField.Inverse(s[0]).value != 0
    ensures Multiply(Delta([1, s[0]], s, 1), GaloisField.Inverse(s[0]).value) == Add(GaloisField.Exp(p), s[0])
  {
    var x := GaloisField.Exp(p);
    FirstSyndromes(s, v, p);
    GaloisField.ExpNonzero(p);
    GaloisField.NoZeroDivisors(v, x);
    var d0 := s[0];
    var e0 := GaloisField.Inverse(d0).value;
    MultiplyZeroRight(d0);
    var d1 := Delta([1, d0], s, 1);
    DeltaLinear([1, d0], 1, d0, s, 1);
    SecondDiscrepancy(v, x, Multiply(x, x), d0, e0, d1);
  }

  /** Past the second round every discrepancy is zero. */
  lemma ZeroDiscrepancy(s: seq<byte>, v: byte, p: nat, loc: seq<byte>, i: nat)
    requires SingleSyndromes(s, v, p) && loc == [1, GaloisField.Exp(p)] && 1 <= i < |s|
    ensures Delta(loc, s, i) == 0
  {
    NextSyndrome(s, v, p, i);
    DeltaLinear(loc, 1, GaloisField.Exp(p), s, i);
    AddSelf(s[i]);
  }

  /** A locator whose remaining discrepancies are all zero is the result of the loop. */
  lemma {:induction false} NoDiscrepancy(s: seq<byte>, i: nat, loc: seq<byte>, prev: seq<byte>)
    requires i <= |s| && |loc| <= i + 1 && |prev| <= i + 1
    requires forall j :: i <= j < |s| ==> Delta(loc, s, j) == 0
    ensures LocatorFrom(s, i, loc, prev) == loc
    decreases |s| - i
  {
    if i < |s| {
      var next := Round(loc, prev, 0);
      assert next.0 == loc;
      LocatorFromStep(s, i, loc, prev, 0, next);
      NoDiscrepancy(s, i + 1, loc, next.1);
    }
  }

  /** The locator of a single error at position p is 1 + alpha^p x. */
  lemma SingleLocator(s: seq<byte>, v: byte, p: nat)
    requires SingleSyndromes(s, v, p) && |s| >= 2 && v != 0
    ensures Locator(s) == [1, GaloisField.Exp(p)]
  {
    var d0 := s[0];
    SecondRound(s, v, p);
    var e0 := GaloisField.Inverse(d0).value;
    var one := [1];
    assert Delta(one, s, 0) == d0;
    FirstRound(one, d0);
    LocatorFromStep(s, 0, [1], [1], d0, ([1, d0], [e0]));
    var d1 := Delta([1, d0], s, 1);
    GaloisField.ExpNonzero(p);
    RoundTwo([1, d0], [e0], GaloisField.Exp(p), d0, e0, d1);
    LocatorFromStep(s, 1, [1, d0], [e0], d1, ([1, GaloisField.Exp(p)], [0, e0]));
    var loc := [1, GaloisField.Exp(p)];
    forall j | 2 <= j < |s|
      ensures Delta(loc, s, j) == 0
    {
      ZeroDiscrepancy(s, v, p, loc, j);
    }
    NoDiscrepancy(s, 2, loc, [0, e0]);
  }

  // ---------------------------------------------------------------------------------------
  // The error position

  /** 1 + X x vanishes at alpha^e, e < 255, exactly for the exponent of position p. */
  lemma LocatorRoot(loc: seq<byte>, p: nat, e: nat)
    requires loc == [1, GaloisField.Exp(p)] && p < 255 && e < 255
    ensures Vanishes(loc, e) <==> e == ExponentOf(p)
  {
    var x, y := GaloisField.Exp(p), GaloisField.Exp(e);
    var z := Multiply(x, y);
    EvalLinear(1, x, y);
    GaloisField.ExpAdd(p, e);
    GaloisField.ExpOne(p + e);
    if Add(1, z) == 0 {
      PolynomialDivision.AddCancel(1, z);
    }
    if z == 1 {
      AddSelf(1);
    }
  }

  /** The search for roots of 1 + X x finds exactly the exponent of position p. */
  lemma LocatorRoots(loc: seq<byte>, p: nat)
    requires loc == [1, GaloisField.Exp(p)] && p < 255
    ensures Ascending(RootsFrom(loc, 0))
    ensures forall i: nat :: i in RootsFrom(loc, 0) <==> i == ExponentOf(p)
  {
    RootsFromMembers(loc, 0);
    RootsAscending(loc, 0);
    forall i: nat
      ensures i in RootsFrom(loc, 0) <==> i == ExponentOf(p)
    {
      if i < 255 {
        LocatorRoot(loc, p, i);
      }
    }
  }

  /** Roots that are exactly the exponent of position p give the single position p. */
  lemma SingleRoot(roots: seq<nat>, p: nat)
    requires p < 255 && Ascending(roots)
    requires forall i: nat :: i in roots <==> i == ExponentOf(p)
    ensures roots == [ExponentOf(p)]
    ensures PositionsOf(roots) == [p]
  {
    var e := ExponentOf(p);
    OnlyElement(roots, e);
    assert PositionsOf([e]) == [PositionOf(e)];
  }

  /** The first two entries of an ascending sequence differ. */
  lemma AscendingStart(s: seq<nat>)
    requires Ascending(s)
    ensures |s| < 2 || (s[0] < s[1] && s[0] in s && s[1] in s)
  {
  }

  /** An ascending sequence whose only member is e is [e]. */
  lemma OnlyElement(roots: seq<nat>, e: nat)
    requires Ascending(roots)
    requires forall i: nat :: i in roots <==> i == e
    ensures roots == [e]
  {
    AscendingStart(roots);
    assert e in roots;
    assert roots[0] in roots;
  }

  // ---------------------------------------------------------------------------------------
  // The error value

  /** The error evaluator of a single error is the constant v X. */
  lemma SingleEvaluator(k: nat, s: seq<byte>, v: byte, p: nat)
    requires SingleSyndromes(s, v, p) && |s| == k >= 1 && v != 0
    ensures s[0] == Multiply(v, GaloisField.Exp(p))
    ensures ErrorEvaluator(k, s, [1, GaloisField.Exp(p)]) == [s[0]]
  {
    var x := GaloisField.Exp(p);
    var loc := [1, x];
    var omega := ErrorEvaluator(k, s, loc);
    XPowOne(p);
    GaloisField.ExpNonzero(p);
    GaloisField.NoZeroDivisors(v, x);
    forall t: nat
      ensures Coeff(omega, t) == Coeff([s[0]], t)
    {
      ErrorEvaluatorCoeff(k, s, loc, t);
      if t < k {
        MulLinearCoeff(s, 1, x, t);
        MultiplyOneRight(Coeff(s, t));
        if t == 0 {
          AddZero(s[0]);
        } else {
          NextSyndrome(s, v, p, t);
          MultiplyCommutes(s[t - 1], x);
          AddSelf(s[t]);
        }
      }
    }
    Extensionality(omega, [s[0]]);
  }

  /** The derivative of 1 + X x is the constant X. */
  lemma SingleDerivative(loc: seq<byte>, x: byte)
    requires loc == [1, x] && x != 0
    ensures LocatorDerivative(loc) == [x]
  {
    forall t: nat
      ensures Coeff(LocatorDerivative(loc), t) == Coeff([x], t)
    {
      PolynomialTransforms.DerivativeCoeff(loc, t);
    }
    Extensionality(LocatorDerivative(loc), [x]);
  }

  /** Forney's formula gives back v; the derivative does not vanish, so position p is
      correctable in a word of n bytes exactly when p < n. */
  lemma SingleMagnitude(omega: seq<byte>, dsigma: seq<byte>, p: int, v: byte, x: byte, n: nat)
    requires omega == [Multiply(v, x)] && dsigma == [x] && x != 0 && 0 <= p < 255
    ensures Magnitude(omega, dsigma, p) == Ok(v)
    ensures Correctable(dsigma, p, n) <==> p < n
    ensures Failure(dsigma, p) == IndexOutOfRange
  {
    var y := GaloisField.Exp(255 - p);
    EvalConstant(Multiply(v, x), y);
    EvalConstant(x, y);
    GaloisField.DivideMultiply(v, x);
  }

  /** The byte b with Add(b, a) == v is Add(a, v). */
  lemma SolveAdd(a: byte, b: byte, v: byte)
    requires Add(b, a) == v
    ensures b == Add(a, v)
  {
    AddAssociates(b, a, a);
    AddSelf(a);
    AddZero(b);
    AddCommutes(a, v);
  }

  /** A word that agrees with w off the single position p and holds b at p. */
  lemma UpdatedAt(r: seq<byte>, w: seq<byte>, positions: seq<int>, p: nat, b: byte)
    requires positions == [p] && p < |w| == |r| && r[p] == b
    requires forall i :: 0 <= i < |w| && i !in positions ==> r[i] == w[i]
    ensures r == w[p := b]
  {
    forall i | 0 <= i < |w|
      ensures r[i] == w[p := b][i]
    {
      if i != p {
        assert i !in positions;
      }
    }
  }

  /** The stages of the decoder on the syndromes of a single error v x^p: the locator
      1 + X x, the single position p, the evaluator v X and the derivative X. */
  lemma SingleStages(k: nat, s: seq<byte>, v: byte, p: nat)
    requires SingleSyndromes(s, v, p) && |s| == k >= 2 && v != 0 && p < 255
    ensures var x := GaloisField.Exp(p);
      x != 0 &&
      Locator(s) == [1, x] &&
      ErrorPositions(Locator(s)) == [p] &&
      ErrorEvaluator(k, s, Locator(s)) == [Multiply(v, x)] &&
      LocatorDerivative(Locator(s)) == [x]
  {
    var x := GaloisField.Exp(p);
    GaloisField.ExpNonzero(p);
    SingleLocator(s, v, p);
    var loc := Locator(s);
    LocatorRoots(loc, p);
    SingleRoot(RootsFrom(loc, 0), p);
    SingleEvaluator(k, s, v, p);
    SingleDerivative(loc, x);
  }

  /** Correct at the single position p, from the magnitude there and from whether p is
      correctable. */
  lemma CorrectOne(k: nat, w: seq<byte>, s: seq<byte>, p: nat, v: byte, omega: seq<byte>, dsigma: seq<byte>)
    requires p < 255 && Locator(s) != []
    requires omega == ErrorEvaluator(k, s, Locator(s)) && dsigma == LocatorDerivative(Locator(s))
    requires Magnitude(omega, dsigma, p) == Ok(v) && Failure(dsigma, p) == IndexOutOfRange
    requires Correctable(dsigma, p, |w|) <==> p < |w|
    ensures Correct(k, w, [p], s) == if p < |w| then Ok(w[p := Add(w[p], v)]) else Err(IndexOutOfRange)
  {
    var positions := [p];
    CorrectSucceeds(k, w, positions, s);
    if p < |w| {
      CorrectValues(k, w, positions, s);
      var r := Correct(k, w, positions, s).value;
      SolveAdd(w[p], r[p], v);
      UpdatedAt(r, w, positions, p, Add(w[p], v));
    } else {
      CorrectFails(k, w, positions, s);
    }
  }

  /** The correction of a word at the single position p adds v to its byte there, and fails with
      IndexOutOfRange when p is not an index of the word. */
  lemma SingleCorrection(k: nat, w: seq<byte>, s: seq<byte>, v: byte, p: nat)
    requires SingleSyndromes(s, v, p) && |s| == k >= 2 && v != 0 && p < 255
    ensures ErrorPositions(Locator(s)) == [p]
    ensures Correct(k, w, [p], s) == if p < |w| then Ok(w[p := Add(w[p], v)]) else Err(IndexOutOfRange)
  {
    SingleStages(k, s, v, p);
    var loc := Locator(s);
    var omega, dsigma := ErrorEvaluator(k, s, loc), LocatorDerivative(loc);
    SingleMagnitude(omega, dsigma, p, v, GaloisField.Exp(p), |w|);
    CorrectOne(k, w, s, p, v, omega, dsigma);
  }

  // ---------------------------------------------------------------------------------------
  // The decoders on a word with one corrupted byte

  /** A single error v != 0 has a nonzero first syndrome. */
  lemma SingleNonzero(s: seq<byte>, v: byte, p: nat)
    requires SingleSyndromes(s, v, p) && |s| >= 1 && v != 0
    ensures !AllZero(s)
  {
    XPowOne(p);
    GaloisField.ExpNonzero(p);
    GaloisField.NoZeroDivisors(v, GaloisField.Exp(p));
    assert s[0] != 0;
  }

  /** Adding v twice at p gives the word back. */
  lemma CorruptTwice(c: seq<byte>, p: nat, v: byte)
    requires p < |c|
    ensures Corrupt(Corrupt(c, p, v), p, v) == c
  {
    AddAssociates(c[p], v, v);
    AddSelf(v);
    AddZero(c[p]);
  }

  /** A word with zero syndromes, corrupted at position p by v != 0, goes back to the word's
      message under the corrected decoder. */
  lemma DecodeUntrimmedCorrupt(k: nat, c: seq<byte>, p: nat, v: byte, r: seq<byte>)
    requires 2 <= k < |c| <= 255 && p < |c| && v != 0 && r == Corrupt(c, p, v)
    requires AllZero(Syndromes(k, Trim(c)))
    ensures DecodeUntrimmed(k, r) == Ok(ExtractMessage(k, c))
  {
    var s := Syndromes(k, r);
    CorruptSyndromes(k, c, p, v);
    SingleNonzero(s, v, p);
    SingleCorrection(k, r, s, v, p);
    CorruptTwice(c, p, v);
  }

  /** The decoder as written corrects the trimmed word instead: it is corrected at p when p is
      still one of its indices, and fails with IndexOutOfRange when the corruption zeroed the
      last byte so that trimming removed position p. */
  lemma DecodeCorrupt(k: nat, c: seq<byte>, p: nat, v: byte, r: seq<byte>)
    requires 2 <= k < |c| <= 255 && p < |c| && v != 0 && r == Corrupt(c, p, v)
    requires AllZero(Syndromes(k, Trim(c)))
    ensures p < |Trim(r)| ==> Decode(k, r) == Ok(ExtractMessage(k, Corrupt(Trim(r), p, v)))
    ensures p >= |Trim(r)| ==> Decode(k, r) == Err(IndexOutOfRange)
  {
    var t := Trim(r);
    var s := Syndromes(k, t);
    CorruptSyndromes(k, c, p, v);
    SingleNonzero(s, v, p);
    SingleCorrection(k, t, s, v, p);
    DecodeCorrects(k, r);
  }

  // ---------------------------------------------------------------------------------------
  // Codewords of the encoder with one corrupted byte

  /** With at least two parity symbols, a codeword of at most 255 bytes with one byte
      corrupted is decoded to its message, as long as the corrupted word does not end in a
      zero byte. */
  lemma SingleErrorCorrected(k: nat, message: seq<byte>, p: nat, v: byte)
    requires k >= 2 && message != [] && |message| + k <= 255 && v != 0 && p < |message| + k
    requires Corrupt(Encoding.Encode(k, message).value, p, v)[|message| + k - 1] != 0
    ensures Decode(k, Corrupt(Encoding.Encode(k, message).value, p, v)) == Ok(message)
  {
    var c := Encoding.Encode(k, message).value;
    var r := Corrupt(c, p, v);
    CodewordSyndromes(k, message);
    DecodeCorrupt(k, c, p, v, r);
    TrimTrimmed(r);
    CorruptTwice(c, p, v);
  }

  /** The corrected decoder restores every codeword of at most 255 bytes with one corrupted
      byte, whatever the byte becomes. */
  lemma UntrimmedCorrectsSingleError(k: nat, message: seq<byte>, p: nat, v: byte)
    requires k >= 2 && message != [] && |message| + k <= 255 && v != 0 && p < |message| + k
    ensures DecodeUntrimmed(k, Corrupt(Encoding.Encode(k, message).value, p, v)) == Ok(message)
  {
    var c := Encoding.Encode(k, message).value;
    CodewordSyndromes(k, message);
    DecodeUntrimmedCorrupt(k, c, p, v, Corrupt(c, p, v));
  }

  /** A word that differs from c at p alone is c corrupted at p by the difference of the two
      bytes there, which is not zero. */
  lemma DifferingIsCorrupt(c: seq<byte>, p: nat, r: seq<byte>)
    requires p < |c| == |r| && r[p] != c[p]
    requires forall i :: 0 <= i < |c| && i != p ==> r[i] == c[i]
    ensures Add(c[p], r[p]) != 0 && r == Corrupt(c, p, Add(c[p], r[p]))
  {
    AddAssociates(c[p], c[p], r[p]);
    AddSelf(c[p]);
    AddZero(r[p]);
    AddZero(c[p]);
  }

  /** A word that differs from a word with zero syndromes at p alone, where trimming removes
      position p: the decoder as written fails with IndexOutOfRange. */
  lemma DecodeDifferingBeyond(k: nat, c: seq<byte>, p: nat, r: seq<byte>)
    requires 2 <= k < |c| <= 255 && p < |c| == |r| && r[p] != c[p]
    requires forall i :: 0 <= i < |c| && i != p ==> r[i] == c[i]
    requires AllZero(Syndromes(k, Trim(c))) && |Trim(r)| <= p
    ensures Decode(k, r) == Err(IndexOutOfRange)
  {
    DifferingIsCorrupt(c, p, r);
    DecodeCorrupt(k, c, p, Add(c[p], r[p]), r);
  }

  /** A word that differs from a word with zero syndromes at one position: the corrected
      decoder returns the message of the word with zero syndromes. */
  lemma DecodeUntrimmedDiffering(k: nat, c: seq<byte>, p: nat, r: seq<byte>)
    requires 2 <= k < |c| <= 255 && p < |c| == |r| && r[p] != c[p]
    requires forall i :: 0 <= i < |c| && i != p ==> r[i] == c[i]
    requires AllZero(Syndromes(k, Trim(c)))
    ensures DecodeUntrimmed(k, r) == Ok(ExtractMessage(k, c))
  {
    DifferingIsCorrupt(c, p, r);
    DecodeUntrimmedCorrupt(k, c, p, Add(c[p], r[p]), r);
  }

  /** Trimming a word whose last byte is zero leaves fewer bytes than the word has. */
  lemma TrimZeroLast(r: seq<byte>)
    requires r != [] && r[|r| - 1] == 0
    ensures |Trim(r)| < |r|
  {
  }

  /** A word with zero syndromes whose last byte, nonzero, is received as zero: the decoder as
      written fails with IndexOutOfRange, the corrected decoder returns the word's message. */
  lemma ZeroedLast(k: nat, c: seq<byte>, r: seq<byte>)
    requires 2 <= k < |c| <= 255 && c[|c| - 1] != 0 && r == c[|c| - 1 := 0]
    requires AllZero(Syndromes(k, Trim(c)))
    ensures Decode(k, r) == Err(IndexOutOfRange)
    ensures DecodeUntrimmed(k, r) == Ok(ExtractMessage(k, c))
  {
    TrimZeroLast(r);
    DecodeDifferingBeyond(k, c, |c| - 1, r);
    DecodeUntrimmedDiffering(k, c, |c| - 1, r);
  }

  /** A codeword whose last byte, nonzero, is received as zero: the decoder as written fails
      with IndexOutOfRange, the corrected decoder returns the message. */
  lemma ZeroedLastByteFails(k: nat, message: seq<byte>, c: seq<byte>, r: seq<byte>)
    requires k >= 2 && message != [] && |message| + k <= 255 && message[|message| - 1] != 0
    requires c == Encoding.Encode(k, message).value && r == c[|c| - 1 := 0]
    ensures Decode(k, r) == Err(IndexOutOfRange)
    ensures DecodeUntrimmed(k, r) == Ok(message)
  {
    assert c[|c| - 1] == message[|message| - 1];
    CodewordSyndromes(k, message);
    ZeroedLast(k, c, r);
  }

  /** The one-error case of the decoder's tests: the last byte of the codeword of
      "DON'T PANIC", 0x43, received as 0x42. */
  lemma DecodeWithErrorsVector(message: seq<byte>, received: seq<byte>)
    requires message == [0x44, 0x4f, 0x4e, 0x27, 0x54, 0x20, 0x50, 0x41, 0x4e, 0x49, 0x43]
    requires received == Encoding.Encode(4, message).value[14 := 0x42]
    ensures Decode(4, received) == Ok(message)
  {
    var c := Encoding.Encode(4, message).value;
    var b, one := c[14], 1;
    assert b == message[10];
    AddDigits(b, one);
    assert Corrupt(c, 14, one) == received;
    SingleErrorCorrected(4, message, 14, one);
  }
}
