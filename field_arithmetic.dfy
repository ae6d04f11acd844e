/** Arithmetic in GF(2^8). A byte stands for a polynomial over GF(2) of degree below 8 (bit i is
    the coefficient of x^i), reduced modulo the primitive polynomial x^8 + x^4 + x^3 + x^2 + 1
    (0x11D); alpha = 2 (the polynomial x) generates the nonzero elements. */
module FieldArithmetic {

  type byte = x: int | 0 <= x < 256

  /** Bitwise exclusive or of two naturals, least significant bit first. */
  function Xor(a: nat, b: nat): nat
    decreases a + b
  {
    if a == 0 then b else if b == 0 then a else 2 * Xor(a / 2, b / 2) + (if a % 2 == b % 2 then 0 else 1)
  }

  function Pow2(n: nat): nat {
    if n == 0 then 1 else 2 * Pow2(n - 1)
  }

  /** The low bit of an exclusive or is the parity of the low bits; the rest is the exclusive
      or of the remaining bits. */
  lemma XorSplit(a: nat, b: nat)
    ensures Xor(a, b) == 2 * Xor(a / 2, b / 2) + (if a % 2 == b % 2 then 0 else 1)
  {
    if a == 0 {
      assert Xor(a, b) == b;
      assert Xor(a / 2, b / 2) == b / 2;
    } else if b == 0 {
      assert Xor(a, b) == a;
      assert Xor(a / 2, b / 2) == a / 2;
    }
  }

  lemma XorHalves(a: nat, b: nat)
    ensures Xor(a, b) / 2 == Xor(a / 2, b / 2) && Xor(a, b) % 2 == (if a % 2 == b % 2 then 0 else 1)
  {
    XorSplit(a, b);
  }

  lemma {:induction false} XorBound(a: nat, b: nat, n: nat)
    requires a < Pow2(n) && b < Pow2(n)
    ensures Xor(a, b) < Pow2(n)
    decreases n
  {
    if a != 0 && b != 0 {
      XorBound(a / 2, b / 2, n - 1);
    }
  }

  lemma {:induction false} XorCommutes(a: nat, b: nat)
    ensures Xor(a, b) == Xor(b, a)
    decreases a + b
  {
    if a != 0 && b != 0 {
      XorCommutes(a / 2, b / 2);
    }
  }

  lemma {:induction false} XorAssociates(a: nat, b: nat, c: nat)
    ensures Xor(Xor(a, b), c) == Xor(a, Xor(b, c))
    decreases a + b + c
  {
    if a + b + c != 0 {
      var ab, bc := Xor(a, b), Xor(b, c);
      var l, r := Xor(ab, c), Xor(a, bc);
      XorHalves(a, b);
      XorHalves(b, c);
      XorHalves(ab, c);
      XorHalves(a, bc);
      XorAssociates(a / 2, b / 2, c / 2);
      assert l / 2 == r / 2;
      assert l % 2 == r % 2;
    }
  }

  lemma {:induction false} XorSelf(a: nat)
    ensures Xor(a, a) == 0
    decreases a
  {
    if a != 0 {
      XorSelf(a / 2);
    }
  }

  lemma XorDouble(a: nat, b: nat, a2: nat, b2: nat)
    requires a2 == 2 * a && b2 == 2 * b
    ensures Xor(a2, b2) == 2 * Xor(a, b)
  {
    XorSplit(a2, b2);
  }

  lemma XorLowBit(k: nat, bit: nat)
    requires bit < 2
    ensures Xor(2 * k, bit) == 2 * k + bit
  {
    XorSplit(2 * k, bit);
  }

  /** Setting bit n (worth p) in one operand sets it in the result. */
  lemma {:induction false} XorHigh(x: nat, y: nat, n: nat, p: nat, xp: nat)
    requires p == Pow2(n) && xp == x + p && x < p && y < p
    ensures Xor(xp, y) == Xor(x, y) + p
    decreases n
  {
    if n == 0 {
      assert x == 0 && y == 0 && xp == 1;
      assert Xor(xp, y) == 1;
    } else {
      XorHalves(xp, y);
      XorHalves(x, y);
      XorHigh(x / 2, y / 2, n - 1, p / 2, xp / 2);
      var l, r := Xor(xp, y), Xor(x, y);
      assert l / 2 == r / 2 + p / 2 && l % 2 == r % 2;
    }
  }

  /** Setting bit n (worth p) in both operands leaves the result unchanged. */
  lemma {:induction false} XorHighBoth(x: nat, y: nat, n: nat, p: nat, xp: nat, yp: nat)
    requires p == Pow2(n) && xp == x + p && yp == y + p && x < p && y < p
    ensures Xor(xp, yp) == Xor(x, y)
    decreases n
  {
    if n == 0 {
      assert x == 0 && y == 0 && xp == 1 && yp == 1;
      assert Xor(xp, yp) == 2 * Xor(0, 0) + 0;
    } else {
      XorHalves(xp, yp);
      XorHalves(x, y);
      XorHighBoth(x / 2, y / 2, n - 1, p / 2, xp / 2, yp / 2);
      var l, r := Xor(xp, yp), Xor(x, y);
      assert l / 2 == r / 2 && l % 2 == r % 2;
    }
  }

  /** Addition, which is also subtraction: bitwise exclusive or. */
  function Add(a: byte, b: byte): byte {
    XorBound(a, b, 8);
    Xor(a, b)
  }

  lemma AddCommutes(a: byte, b: byte)
    ensures Add(a, b) == Add(b, a)
  {
    XorCommutes(a, b);
  }

  lemma AddAssociates(a: byte, b: byte, c: byte)
    ensures Add(Add(a, b), c) == Add(a, Add(b, c))
  {
    XorAssociates(a, b, c);
  }

  lemma AddSelf(a: byte)
    ensures Add(a, a) == 0
  {
    XorSelf(a);
  }

  lemma AddZero(a: byte)
    ensures Add(a, 0) == a && Add(0, a) == a
  {
  }

  lemma XorSwapLast(a: nat, p: nat, q: nat)
    ensures Xor(Xor(a, p), q) == Xor(Xor(a, q), p)
  {
    XorAssociates(a, p, q);
    XorCommutes(p, q);
    XorAssociates(a, q, p);
  }

  lemma XorCancelPair(u: nat, v: nat, k: nat)
    ensures Xor(Xor(u, k), Xor(v, k)) == Xor(u, v)
  {
    XorSwapLast(u, k, Xor(v, k));
    XorAssociates(u, Xor(v, k), k);
    XorAssociates(v, k, k);
    XorSelf(k);
  }

  /** Multiplication by x: a doubling, reduced by 0x11D when it reaches degree 8. */
  function XTime(a: byte): byte {
    if a < 128 then 2 * a else XorBound(2 * a - 256, 29, 8); Xor(2 * a - 256, 29)
  }

  lemma XTimeAddLow(a: byte, b: byte)
    requires a < 128 && b < 128
    ensures XTime(Add(a, b)) == Add(XTime(a), XTime(b))
  {
    XorDouble(a, b, 2 * a, 2 * b);
    XorBound(a, b, 7);
  }

  /** With bit 7 set in both operands, the sum lies below 128 and doubles like the
      operands with bit 7 cleared. */
  lemma XorTopBoth(a: byte, b: byte, a2: nat, b2: nat)
    requires a >= 128 && b >= 128 && a2 == 2 * a - 256 && b2 == 2 * b - 256
    ensures Xor(a, b) < 128 && Xor(a2, b2) == 2 * Xor(a, b)
  {
    XorHighBoth(a - 128, b - 128, 7, 128, a, b);
    XorBound(a - 128, b - 128, 7);
    XorDouble(a - 128, b - 128, a2, b2);
  }

  /** With bit 7 set in one operand only, the sum keeps bit 7. */
  lemma XorTopOne(a: byte, b: byte, a2: nat, b2: nat)
    requires a >= 128 && b < 128 && a2 == 2 * a - 256 && b2 == 2 * b
    ensures Xor(a, b) >= 128 && Xor(a2, b2) == 2 * Xor(a, b) - 256
  {
    var low := a - 128;
    XorHigh(low, b, 7, 128, a);
    XorDouble(low, b, a2, b2);
    var s, t := Xor(a, b), Xor(low, b);
    assert s == t + 128;
  }

  lemma XTimeAddHighBoth(a: byte, b: byte)
    requires a >= 128 && b >= 128
    ensures XTime(Add(a, b)) == Add(XTime(a), XTime(b))
  {
    var a2, b2 := 2 * a - 256, 2 * b - 256;
    XorTopBoth(a, b, a2, b2);
    XorCancelPair(a2, b2, 29);
  }

  lemma XTimeAddHighLow(a: byte, b: byte)
    requires a >= 128 && b < 128
    ensures XTime(Add(a, b)) == Add(XTime(a), XTime(b))
  {
    var a2, b2 := 2 * a - 256, 2 * b;
    XorTopOne(a, b, a2, b2);
    XorSwapLast(a2, 29, b2);
  }

  /** Multiplication by x is linear. */
  lemma XTimeAdd(a: byte, b: byte)
    ensures XTime(Add(a, b)) == Add(XTime(a), XTime(b))
  {
    if a < 128 && b < 128 {
      XTimeAddLow(a, b);
    } else if a >= 128 && b >= 128 {
      XTimeAddHighBoth(a, b);
    } else if a >= 128 {
      XTimeAddHighLow(a, b);
    } else {
      XTimeAddHighLow(b, a);
      AddCommutes(a, b);
      AddCommutes(XTime(a), XTime(b));
    }
  }

  /** (p + q) + (r + s) == (p + r) + (q + s). */
  lemma AddInterchange(p: byte, q: byte, r: byte, s: byte)
    ensures Add(Add(p, q), Add(r, s)) == Add(Add(p, r), Add(q, s))
  {
    AddAssociates(p, q, Add(r, s));
    AddAssociates(q, r, s);
    AddCommutes(q, r);
    AddAssociates(r, q, s);
    AddAssociates(p, r, Add(q, s));
  }

  /** The contribution of the constant coefficient of b to a * b. */
  function LowTerm(a: byte, b: byte): byte {
    if b % 2 == 0 then 0 else a
  }

  /** Shift-and-xor multiplication: a * b == x * (a * (b div x)) + a * (b mod x). */
  function Multiply(a: byte, b: byte): byte
    decreases b
  {
    if b == 0 then 0 else Add(XTime(Multiply(a, b / 2)), LowTerm(a, b))
  }

  /** Every byte is x * (b div x) + (b mod x), the step the inductions on b rest on. */
  lemma HalfDecomposition(b: byte)
    ensures Add(XTime(b / 2), b % 2) == b
  {
    XorLowBit(b / 2, b % 2);
  }

  lemma MultiplyZeroRight(a: byte)
    ensures Multiply(a, 0) == 0
  {
  }

  lemma MultiplyOneRight(a: byte)
    ensures Multiply(a, 1) == a
  {
    assert Multiply(a, 1) == Add(XTime(Multiply(a, 0)), a);
  }

  lemma {:induction false} MultiplyZeroLeft(b: byte)
    ensures Multiply(0, b) == 0
    decreases b
  {
    if b != 0 {
      MultiplyZeroLeft(b / 2);
      assert Multiply(0, b) == Add(XTime(Multiply(0, b / 2)), LowTerm(0, b));
    }
  }

  lemma {:induction false} MultiplyOneLeft(b: byte)
    ensures Multiply(1, b) == b
    decreases b
  {
    if b != 0 {
      MultiplyOneLeft(b / 2);
      assert Multiply(1, b) == Add(XTime(Multiply(1, b / 2)), LowTerm(1, b));
      assert LowTerm(1, b) == b % 2;
      HalfDecomposition(b);
    }
  }

  /** Multiplying by the constant coefficient of a byte is selecting. */
  lemma MultiplyLowBit(b: byte, a: byte)
    ensures Multiply(b % 2, a) == LowTerm(a, b)
  {
    if b % 2 == 0 {
      MultiplyZeroLeft(a);
    } else {
      MultiplyOneLeft(a);
    }
  }

  lemma {:induction false} MultiplyXTime(a: byte, b: byte)
    ensures Multiply(XTime(a), b) == XTime(Multiply(a, b))
    decreases b
  {
    if b != 0 {
      var m := Multiply(a, b / 2);
      MultiplyXTime(a, b / 2);
      assert Multiply(XTime(a), b) == Add(XTime(XTime(m)), LowTerm(XTime(a), b));
      assert Multiply(a, b) == Add(XTime(m), LowTerm(a, b));
      XTimeAdd(XTime(m), LowTerm(a, b));
      assert XTime(LowTerm(a, b)) == LowTerm(XTime(a), b);
    }
  }

  /** Multiplication distributes over addition in its left operand. */
  lemma {:induction false} MultiplyAddLeft(a: byte, c: byte, b: byte)
    ensures Multiply(Add(a, c), b) == Add(Multiply(a, b), Multiply(c, b))
    decreases b
  {
    if b != 0 {
      var ma, mc := Multiply(a, b / 2), Multiply(c, b / 2);
      MultiplyAddLeft(a, c, b / 2);
      assert Multiply(Add(a, c), b) == Add(XTime(Add(ma, mc)), LowTerm(Add(a, c), b));
      XTimeAdd(ma, mc);
      if b % 2 == 0 {
        AddZero(0);
        AddInterchange(XTime(ma), XTime(mc), 0, 0);
      } else {
        AddInterchange(XTime(ma), XTime(mc), a, c);
      }
      assert Multiply(a, b) == Add(XTime(ma), LowTerm(a, b));
      assert Multiply(c, b) == Add(XTime(mc), LowTerm(c, b));
    }
  }

  lemma {:induction false} MultiplyCommutes(a: byte, b: byte)
    ensures Multiply(a, b) == Multiply(b, a)
    decreases b
  {
    if b == 0 {
      MultiplyZeroLeft(a);
    } else {
      var h := b / 2;
      MultiplyCommutes(a, h);
      assert Multiply(a, b) == Add(XTime(Multiply(h, a)), LowTerm(a, b));
      MultiplyXTime(h, a);
      MultiplyLowBit(b, a);
      MultiplyAddLeft(XTime(h), b % 2, a);
      HalfDecomposition(b);
    }
  }

  /** Multiplication distributes over addition in its right operand. */
  lemma MultiplyAddRight(a: byte, b: byte, c: byte)
    ensures Multiply(a, Add(b, c)) == Add(Multiply(a, b), Multiply(a, c))
  {
    MultiplyCommutes(a, Add(b, c));
    MultiplyAddLeft(b, c, a);
    MultiplyCommutes(a, b);
    MultiplyCommutes(a, c);
  }

  /** x * (a * c) == a * (x * c): multiplication by x moves into the right operand too. */
  lemma MultiplyXTimeRight(a: byte, c: byte)
    ensures Multiply(a, XTime(c)) == XTime(Multiply(a, c))
  {
    MultiplyCommutes(a, XTime(c));
    MultiplyXTime(c, a);
    MultiplyCommutes(c, a);
  }

  /** (a * b) * c, split along the halving of b. */
  lemma AssociatesLeft(a: byte, b: byte, c: byte)
    requires b != 0
    ensures Multiply(Multiply(a, b), c)
      == Add(XTime(Multiply(Multiply(a, b / 2), c)), Multiply(LowTerm(a, b), c))
  {
    var ah := Multiply(a, b / 2);
    assert Multiply(a, b) == Add(XTime(ah), LowTerm(a, b));
    MultiplyAddLeft(XTime(ah), LowTerm(a, b), c);
    MultiplyXTime(ah, c);
  }

  /** a * (b * c), split along the halving of b. */
  lemma AssociatesRight(a: byte, b: byte, c: byte)
    ensures Multiply(a, Multiply(b, c))
      == Add(XTime(Multiply(a, Multiply(b / 2, c))), Multiply(a, Multiply(b % 2, c)))
  {
    var h := b / 2;
    var hc := Multiply(h, c);
    HalfDecomposition(b);
    MultiplyAddLeft(XTime(h), b % 2, c);
    MultiplyXTime(h, c);
    MultiplyAddRight(a, XTime(hc), Multiply(b % 2, c));
    MultiplyXTimeRight(a, hc);
  }

  lemma AssociatesLow(a: byte, b: byte, c: byte)
    ensures Multiply(LowTerm(a, b), c) == Multiply(a, Multiply(b % 2, c))
  {
    var bit := b % 2;
    if bit == 0 {
      assert LowTerm(a, b) == 0;
      MultiplyZeroLeft(c);
      assert Multiply(bit, c) == 0;
      MultiplyZeroRight(a);
    } else {
      assert LowTerm(a, b) == a && bit == 1;
      MultiplyOneLeft(c);
    }
  }

  lemma {:induction false} MultiplyAssociates(a: byte, b: byte, c: byte)
    ensures Multiply(Multiply(a, b), c) == Multiply(a, Multiply(b, c))
    decreases b
  {
    if b == 0 {
      MultiplyZeroLeft(c);
    } else {
      AssociatesLeft(a, b, c);
      AssociatesRight(a, b, c);
      AssociatesLow(a, b, c);
      MultiplyAssociates(a, b / 2, c);
    }
  }

  // Closed forms of XOR with a run of low one bits, used to evaluate XTime as plain arithmetic.

  lemma XorOne(w: nat)
    ensures Xor(w, 1) == w + 1 - 2 * (w % 2)
  {
    if w != 0 {
      XorSplit(w, 1);
      assert Xor(w / 2, 0) == w / 2;
    }
  }

  /** Division with remainder is determined by its defining equation. */
  lemma MulAtLeast(m: nat, d: int)
    requires d >= 1
    ensures m * d >= m
  {
  }

  lemma DivModUnique(z: nat, m: nat, q: nat, r: nat)
    requires 0 <= r < m && z == m * q + r
    ensures z / m == q && z % m == r
  {
    var d := q - z / m;
    assert m * d == z % m - r;
    if d >= 1 {
      MulAtLeast(m, d);
    } else if d <= -1 {
      MulAtLeast(m, -d);
    }
  }

  lemma XorThree(z: nat)
    ensures Xor(z, 3) == z + 3 - 2 * (z % 4)
  {
    var h, b := z / 2, z % 2;
    XorSplit(z, 3);
    XorOne(h);
    DivModUnique(h, 2, h / 2, h % 2);
    DivModUnique(z, 4, h / 2, b + 2 * (h % 2));
  }

  lemma XorSeven(z: nat)
    ensures Xor(z, 7) == z + 7 - 2 * (z % 8)
  {
    var h, b := z / 2, z % 2;
    XorSplit(z, 7);
    XorThree(h);
    DivModUnique(h, 4, h / 4, h % 4);
    DivModUnique(z, 8, h / 4, b + 2 * (h % 4));
  }

  /** XTime as arithmetic: doubling, and for a high bit the reduction by 0x11D. */
  lemma XorFourteen(u: nat)
    ensures Xor(u, 14) == u + 14 - 4 * ((u / 2) % 8)
  {
    XorSplit(u, 14);
    XorSeven(u / 2);
  }

  lemma XorTwentyNine(y: nat)
    requires y % 2 == 0
    ensures Xor(y, 29) == y + 29 - 8 * ((y / 4) % 8)
  {
    var h := y / 2;
    XorSplit(y, 29);
    XorFourteen(h);
    DivModUnique(y, 4, h / 2, 2 * (h % 2));
  }

  /** XTime as arithmetic: doubling, and for a high bit the reduction by 0x11D. */
  lemma XTimeValue(a: byte)
    ensures XTime(a) == if a < 128 then 2 * a else 2 * a - 227 - 8 * ((a / 2) % 8)
  {
    if a >= 128 {
      var y, h := 2 * a - 256, a / 2;
      DivModUnique(y, 2, a - 128, 0);
      XorTwentyNine(y);
      DivModUnique(y, 4, h - 64, 2 * (a % 2));
      DivModUnique(h, 8, (h - 64) / 8 + 8, (h - 64) % 8);
    }
  }

  lemma MultiplyByX(a: byte)
    ensures Multiply(a, 2) == XTime(a)
  {
    MultiplyOneRight(a);
    assert Multiply(a, 2) == Add(XTime(Multiply(a, 1)), 0);
    AddZero(XTime(a));
  }

  /** (a * b) * (c * d) == (a * c) * (b * d). */
  lemma MultiplyInterchange(a: byte, b: byte, c: byte, d: byte)
    ensures Multiply(Multiply(a, b), Multiply(c, d)) == Multiply(Multiply(a, c), Multiply(b, d))
  {
    MultiplyAssociates(a, b, Multiply(c, d));
    MultiplyAssociates(b, c, d);
    MultiplyCommutes(b, c);
    MultiplyAssociates(c, b, d);
    MultiplyAssociates(a, c, Multiply(b, d));
  }

  /** x raised to the n-th power. */
  function Power(x: byte, n: nat): byte {
    if n == 0 then 1 else Multiply(Power(x, n - 1), x)
  }

  /** Power unfolds by one factor. */
  lemma PowerSucc(x: byte, n: nat, pn: byte, pn1: byte)
    requires n >= 1 && pn == Power(x, n) && pn1 == Power(x, n - 1)
    ensures pn == Multiply(pn1, x)
  {
  }

  lemma {:induction false} PowerAdd(x: byte, m: nat, n: nat)
    ensures Power(x, m + n) == Multiply(Power(x, m), Power(x, n))
    decreases n
  {
    if n == 0 {
      MultiplyOneRight(Power(x, m));
    } else {
      var pm, pn, pk, pmn, pmk := Power(x, m), Power(x, n), Power(x, n - 1), Power(x, m + n), Power(x, m + n - 1);
      PowerAdd(x, m, n - 1);
      PowerSucc(x, m + n, pmn, pmk);
      PowerSucc(x, n, pn, pk);
      MultiplyAssociates(pm, pk, x);
    }
  }

  /** One step along the powers of alpha == 2: from alpha^i == v to alpha^(i + 1) == w. The
      digits of v (v == 16 q + 2 h + b) are given so that the step needs only linear
      arithmetic. */
  lemma PowerStep(x: byte, i: nat, v: byte, q: nat, h: nat, b: nat, w: byte)
    requires x == 2 && Power(x, i) == v
    requires v == 16 * q + 2 * h + b && h < 8 && b < 2
    requires w == if v < 128 then 2 * v else 2 * v - 227 - 8 * h
    ensures Power(x, i + 1) == w
  {
    MultiplyByX(v);
    XTimeValue(v);
    DivModUnique(v, 2, 8 * q + h, b);
    DivModUnique(v / 2, 8, q, h);
  }

  /** Whether bit p (a power of two) of a and b differ, as 0 or 1. */
  function BitDiffers(a: nat, b: nat, p: nat): nat
    requires p > 0
  {
    if (a / p) % 2 == (b / p) % 2 then 0 else 1
  }

  /** The exclusive or of two bytes written out bit by bit, without recursion, so that it can
      be computed on literal bytes. */
  function XorDigits(a: byte, b: byte): nat {
    BitDiffers(a, b, 1) + 2 * BitDiffers(a, b, 2) + 4 * BitDiffers(a, b, 4) + 8 * BitDiffers(a, b, 8)
      + 16 * BitDiffers(a, b, 16) + 32 * BitDiffers(a, b, 32) + 64 * BitDiffers(a, b, 64)
      + 128 * BitDiffers(a, b, 128)
  }

  /** One step of the exclusive or, read at bit position p: x == z div p and x2 == z div 2p. */
  lemma XorAt(z: nat, w: nat, p: nat, x: nat, y: nat, x2: nat, y2: nat)
    requires p > 0 && x == z / p && y == w / p && x2 == x / 2 && y2 == y / 2
    ensures Xor(x, y) == BitDiffers(z, w, p) + 2 * Xor(x2, y2)
  {
    XorSplit(x, y);
  }

  /** Halving a byte repeatedly gives its quotients by the powers of two. */
  lemma HalvedQuotients(a: byte)
    ensures a / 2 / 2 == a / 4 && a / 4 / 2 == a / 8 && a / 8 / 2 == a / 16
    ensures a / 16 / 2 == a / 32 && a / 32 / 2 == a / 64 && a / 64 / 2 == a / 128
    ensures a / 128 / 2 == 0
  {
  }

  /** The four low bits of an exclusive or of bytes, and the rest. */
  lemma XorLowNibble(a: byte, b: byte)
    ensures Xor(a, b) == BitDiffers(a, b, 1) + 2 * BitDiffers(a, b, 2) + 4 * BitDiffers(a, b, 4)
      + 8 * BitDiffers(a, b, 8) + 16 * Xor(a / 16, b / 16)
  {
    HalvedQuotients(a);
    HalvedQuotients(b);
    XorAt(a, b, 1, a, b, a / 2, b / 2);
    XorAt(a, b, 2, a / 2, b / 2, a / 4, b / 4);
    XorAt(a, b, 4, a / 4, b / 4, a / 8, b / 8);
    XorAt(a, b, 8, a / 8, b / 8, a / 16, b / 16);
  }

  /** The four high bits of an exclusive or of bytes. */
  lemma XorHighNibble(a: byte, b: byte)
    ensures Xor(a / 16, b / 16) == BitDiffers(a, b, 16) + 2 * BitDiffers(a, b, 32)
      + 4 * BitDiffers(a, b, 64) + 8 * BitDiffers(a, b, 128)
  {
    HalvedQuotients(a);
    HalvedQuotients(b);
    XorAt(a, b, 16, a / 16, b / 16, a / 32, b / 32);
    XorAt(a, b, 32, a / 32, b / 32, a / 64, b / 64);
    XorAt(a, b, 64, a / 64, b / 64, a / 128, b / 128);
    XorAt(a, b, 128, a / 128, b / 128, 0, 0);
  }

  /** Addition computed bit by bit. */
  lemma AddDigits(a: byte, b: byte)
    ensures Add(a, b) == XorDigits(a, b)
  {
    XorLowNibble(a, b);
    XorHighNibble(a, b);
  }
}
