/** The field operations the codec calls: addition and multiplication come from FieldArithmetic;
    this module adds the exponential alpha^e, the logarithm, the multiplicative inverse and
    division. Inverse and Divide reject a zero divisor with DivisionByZero. */
module GaloisField {
  import opened Results
  import opened FieldArithmetic
  import FieldPowers

  /** alpha^e with alpha == 2, the exponent first reduced modulo the group order 255. */
  function Exp(e: nat): byte
    decreases e
  {
    if e < 255 then Power(2, e) else Exp(e - 255)
  }

  /** Every power of alpha is nonzero. */
  lemma {:induction false} AlphaPowerNonzero(x: byte, n: nat)
    requires x == 2
    ensures Power(x, n) != 0
  {
    if n > 0 {
      var p := Power(x, n - 1);
      AlphaPowerNonzero(x, n - 1);
      MultiplyByX(p);
      XTimeValue(p);
    }
  }

  /** alpha^255 == 1, so the powers of alpha repeat with period 255. */
  lemma PowerPeriod(x: byte, m: nat, n: nat, e: nat)
    requires x == 2 && n == 255 && e == m + n
    ensures Power(x, e) == Power(x, m)
  {
    var p := Power(x, m);
    PowerAdd(x, m, n);
    MultiplyOneRight(p);
    FieldPowers.PowerCycle(x);
  }

  /** Reducing the exponent does not change the power. */
  lemma {:induction false} ExpIsPower(x: byte, e: nat)
    requires x == 2
    ensures Exp(e) == Power(x, e)
    decreases e
  {
    if e >= 255 {
      var n := 255;
      ExpIsPower(x, e - n);
      PowerPeriod(x, e - n, n, e);
    }
  }

  /** The first exponent from e on whose power of alpha is a (255 when there is none). */
  function LogFrom(a: byte, e: nat): nat
    decreases 255 - e
  {
    if e >= 255 || Power(2, e) == a then e else LogFrom(a, e + 1)
  }

  lemma {:induction false} LogFromFinds(a: byte, e: nat, k: nat)
    requires e <= k < 255 && Power(2, k) == a
    ensures LogFrom(a, e) <= k && Power(2, LogFrom(a, e)) == a
    decreases k - e
  {
    if Power(2, e) != a {
      LogFromFinds(a, e + 1, k);
    }
  }

  lemma LogExists(a: byte)
    requires a != 0
    ensures LogFrom(a, 0) < 255 && Power(2, LogFrom(a, 0)) == a
  {
    var x := 2;
    FieldPowers.Primitive(x, a);
    var k :| 0 <= k < 255 && Power(x, k) == a;
    LogFromFinds(a, 0, k);
  }

  /** The discrete logarithm of a nonzero byte to the base alpha. */
  function Log(a: byte): (e: nat)
    requires a != 0
    ensures e < 255 && Exp(e) == a
  {
    LogExists(a);
    LogFrom(a, 0)
  }

  /** Exponents add under multiplication. */
  lemma ExpAdd(i: nat, j: nat)
    ensures Multiply(Exp(i), Exp(j)) == Exp(i + j)
  {
    var x := 2;
    ExpIsPower(x, i);
    ExpIsPower(x, j);
    ExpIsPower(x, i + j);
    PowerAdd(x, i, j);
  }

  lemma ExpNonzero(e: nat)
    ensures Exp(e) != 0
  {
    var x := 2;
    ExpIsPower(x, e);
    AlphaPowerNonzero(x, e);
  }

  /** Multiplication of nonzero bytes adds their logarithms. */
  lemma MultiplyByLogs(a: byte, b: byte)
    requires a != 0 && b != 0
    ensures Multiply(a, b) == Exp(Log(a) + Log(b))
  {
    var s := Log(a) + Log(b);
    ExpAdd(Log(a), Log(b));
    assert Multiply(a, b) == Exp(s);
  }

  /** The field has no zero divisors. */
  lemma NoZeroDivisors(a: byte, b: byte)
    ensures Multiply(a, b) == 0 <==> a == 0 || b == 0
  {
    if a != 0 && b != 0 {
      MultiplyByLogs(a, b);
      ExpNonzero(Log(a) + Log(b));
    } else if a == 0 {
      MultiplyZeroLeft(b);
    } else {
      MultiplyZeroRight(a);
    }
  }

  /** alpha^l and alpha^(255 - l) are inverse to each other. */
  lemma ExpComplement(l: nat)
    requires l < 255
    ensures Multiply(Exp(l), Exp(255 - l)) == 1
  {
    var k := 255 - l;
    ExpAdd(l, k);
    assert Exp(l + k) == Exp(0);
  }

  /** The multiplicative inverse; zero has none. */
  function Inverse(a: byte): (r: Result<byte>)
    ensures r.Ok? <==> a != 0
    ensures r.Err? ==> r.error == DivisionByZero
    ensures r.Ok? ==> Multiply(a, r.value) == 1
  {
    if a == 0 then Err(DivisionByZero)
    else
      var l := Log(a);
      ExpComplement(l);
      Ok(Exp(255 - l))
  }

  /** A nonzero factor cancels. */
  lemma MultiplyCancel(a: byte, b: byte, c: byte)
    requires c != 0 && Multiply(a, c) == Multiply(b, c)
    ensures a == b
  {
    var d := Inverse(c).value;
    MultiplyAssociates(a, c, d);
    MultiplyAssociates(b, c, d);
    MultiplyOneRight(a);
    MultiplyOneRight(b);
  }

  /** a / b; division by zero is rejected. */
  function Divide(a: byte, b: byte): (r: Result<byte>)
    ensures r.Ok? <==> b != 0
    ensures r.Err? ==> r.error == DivisionByZero
    ensures r.Ok? ==> Multiply(r.value, b) == a
  {
    if b == 0 then Err(DivisionByZero)
    else if a == 0 then MultiplyZeroLeft(b); Ok(0)
    else
      var la, lb := Log(a), Log(b);
      ExpAdd(la + 255 - lb, lb);
      Ok(Exp(la + 255 - lb))
  }

  /** The quotient is the only byte that multiplied by b gives back a. */
  lemma DivideUnique(a: byte, b: byte, c: byte)
    ensures Divide(a, b) == Ok(c) <==> b != 0 && Multiply(c, b) == a
  {
    if b != 0 && Multiply(c, b) == a {
      MultiplyCancel(c, Divide(a, b).value, b);
    }
  }

  /** Dividing a product by one factor gives back the other. */
  lemma DivideMultiply(a: byte, b: byte)
    requires b != 0
    ensures Divide(Multiply(a, b), b) == Ok(a)
  {
    DivideUnique(Multiply(a, b), b, a);
  }

  /** The inverse is the only byte whose product with a is one. */
  lemma InverseUnique(a: byte, c: byte)
    ensures Inverse(a) == Ok(c) <==> Multiply(a, c) == 1
  {
    if Multiply(a, c) == 1 {
      if a == 0 {
        MultiplyZeroLeft(c);
      } else {
        MultiplyCommutes(a, c);
        MultiplyCommutes(a, Inverse(a).value);
        MultiplyCancel(c, Inverse(a).value, a);
      }
    }
  }

  lemma DivideByInverse(a: byte, b: byte)
    requires b != 0
    ensures Divide(a, b) == Ok(Multiply(a, Inverse(b).value))
  {
    var d := Inverse(b).value;
    MultiplyAssociates(a, d, b);
    MultiplyCommutes(d, b);
    MultiplyOneRight(a);
    DivideUnique(a, b, Multiply(a, d));
  }

  /** Products of powers of alpha add exponents modulo 255: alpha^i * alpha^j == alpha^s for
      s == i + j or s == i + j - 255. */
  lemma MultiplyPowers(x: byte, i: nat, j: nat, s: nat)
    requires x == 2 && (s == i + j || s + 255 == i + j)
    ensures Multiply(Power(x, i), Power(x, j)) == Power(x, s)
  {
    var e := i + j;
    PowerAdd(x, i, j);
    if s != e {
      var n := 255;
      PowerPeriod(x, s, n, e);
    }
  }

  /** alpha^n is 1 exactly at the multiples of 255; below 510 these are 0 and 255. */
  lemma ExpOne(n: nat)
    requires n < 510
    ensures Exp(n) == 1 <==> n == 0 || n == 255
  {
    var x := 2;
    var m := if n < 255 then n else n - 255;
    assert Exp(n) == Exp(m);
    ExpIsPower(x, m);
    if m > 0 {
      FieldPowers.Order(x, m);
    }
  }

  /** Distinct exponents below 255 give distinct powers of alpha. */
  lemma ExpInjective(i: nat, j: nat)
    requires i < 255 && j < 255 && Exp(i) == Exp(j)
    ensures i == j
  {
    var lo, hi := if i < j then i else j, if i < j then j else i;
    ExpStep(lo, hi - lo);
  }

  /** alpha^(i + d) == alpha^i only when alpha^d == 1. */
  lemma ExpStep(i: nat, d: nat)
    requires i + d < 255 && Exp(i + d) == Exp(i)
    ensures d == 0
  {
    var a, b := Exp(i), Exp(d);
    ExpAdd(i, d);
    ExpNonzero(i);
    MultiplyOneRight(a);
    MultiplyCommutes(a, b);
    MultiplyCommutes(a, 1);
    MultiplyCancel(b, 1, a);
    ExpOne(d);
  }

  /** The logarithm undoes the exponential. */
  lemma LogExp(e: nat)
    requires e < 255
    ensures Exp(e) != 0 && Log(Exp(e)) == e
  {
    ExpNonzero(e);
    ExpInjective(Log(Exp(e)), e);
  }
}
