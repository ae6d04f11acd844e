/** The codec's own test vectors for four parity bytes (ReedSolomonTests.cs): the encoding of
    "DON'T PANIC", its decoding, and its decoding with the last byte corrupted. The encoding is
    proved by exhibiting the quotient of the division: quotient times generator is the codeword,
    which differs from the shifted message exactly by the parity bytes. As in PolynomialVectors,
    the factors are named entry by entry so that the solver does not evaluate the convolution on
    literals by itself. */
module CodecVectors {
  import opened Results
  import opened FieldArithmetic
  import opened Polynomials
  import PolynomialDivision
  import Encoding
  import Decoding
  import SingleError
  import PolynomialVectors
  import opened ByteFacts

  lemma CodewordProductCoefficient0(q: seq<byte>, g: seq<byte>, r: seq<byte>, t: nat)
    requires |q| == 11 && q[0] == 0x7e && q[1] == 0xa8 && q[2] == 0x88 && q[3] == 0x5a && q[4] == 0xe9 && q[5] == 0x16 && q[6] == 0xba && q[7] == 0x0f && q[8] == 0x6e && q[9] == 0xb8 && q[10] == 0x43 && |g| == 5 && g[0] == 0x74 && g[1] == 0xe7 && g[2] == 0xd8 && g[3] == 0x1e && g[4] == 0x01 && |r| == 15 && r[0] == 0xdb && r[1] == 0x22 && r[2] == 0x58 && r[3] == 0x5c && r[4] == 0x44 && r[5] == 0x4f && r[6] == 0x4e && r[7] == 0x27 && r[8] == 0x54 && r[9] == 0x20 && r[10] == 0x50 && r[11] == 0x41 && r[12] == 0x4e && r[13] == 0x49 && r[14] == 0x43 && t == 0
    ensures Conv(q, g, t, 11) == r[t]
  {
    assert Coeff(q, 0) == 0x7e && Coeff(q, 1) == 0xa8 && Coeff(q, 2) == 0x88 && Coeff(q, 3) == 0x5a && Coeff(q, 4) == 0xe9 && Coeff(q, 5) == 0x16 && Coeff(q, 6) == 0xba && Coeff(q, 7) == 0x0f && Coeff(q, 8) == 0x6e && Coeff(q, 9) == 0xb8 && Coeff(q, 10) == 0x43 && Coeff(g, 0) == 0x74 && Coeff(g, 1) == 0xe7 && Coeff(g, 2) == 0xd8 && Coeff(g, 3) == 0x1e && Coeff(g, 4) == 0x01;
    Product7EBy74(Coeff(q, 0), Coeff(g, 0));
    assert Conv(q, g, 0, 1) == 0xdb;
    assert Conv(q, g, 0, 2) == 0xdb;
    assert Conv(q, g, 0, 3) == 0xdb;
    assert Conv(q, g, 0, 4) == 0xdb;
    assert Conv(q, g, 0, 5) == 0xdb;
    assert Conv(q, g, 0, 6) == 0xdb;
    assert Conv(q, g, 0, 7) == 0xdb;
    assert Conv(q, g, 0, 8) == 0xdb;
    assert Conv(q, g, 0, 9) == 0xdb;
    assert Conv(q, g, 0, 10) == 0xdb;
    assert Conv(q, g, 0, 11) == 0xdb;
  }

  lemma CodewordProductCoefficient1(q: seq<byte>, g: seq<byte>, r: seq<byte>, t: nat)
    requires |q| == 11 && q[0] == 0x7e && q[1] == 0xa8 && q[2] == 0x88 && q[3] == 0x5a && q[4] == 0xe9 && q[5] == 0x16 && q[6] == 0xba && q[7] == 0x0f && q[8] == 0x6e && q[9] == 0xb8 && q[10] == 0x43 && |g| == 5 && g[0] == 0x74 && g[1] == 0xe7 && g[2] == 0xd8 && g[3] == 0x1e && g[4] == 0x01 && |r| == 15 && r[0] == 0xdb && r[1] == 0x22 && r[2] == 0x58 && r[3] == 0x5c && r[4] == 0x44 && r[5] == 0x4f && r[6] == 0x4e && r[7] == 0x27 && r[8] == 0x54 && r[9] == 0x20 && r[10] == 0x50 && r[11] == 0x41 && r[12] == 0x4e && r[13] == 0x49 && r[14] == 0x43 && t == 1
    ensures Conv(q, g, t, 11) == r[t]
  {
    assert Coeff(q, 0) == 0x7e && Coeff(q, 1) == 0xa8 && Coeff(q, 2) == 0x88 && Coeff(q, 3) == 0x5a && Coeff(q, 4) == 0xe9 && Coeff(q, 5) == 0x16 && Coeff(q, 6) == 0xba && Coeff(q, 7) == 0x0f && Coeff(q, 8) == 0x6e && Coeff(q, 9) == 0xb8 && Coeff(q, 10) == 0x43 && Coeff(g, 0) == 0x74 && Coeff(g, 1) == 0xe7 && Coeff(g, 2) == 0xd8 && Coeff(g, 3) == 0x1e && Coeff(g, 4) == 0x01;
    Product7EByE7(Coeff(q, 0), Coeff(g, 1));
    assert Conv(q, g, 1, 1) == 0x1b;
    ProductA8By74(Coeff(q, 1), Coeff(g, 0));
    Sum1BAnd39(Conv(q, g, 1, 1), Term(q, g, 1, 1));
    assert Conv(q, g, 1, 2) == 0x22;
    assert Conv(q, g, 1, 3) == 0x22;
    assert Conv(q, g, 1, 4) == 0x22;
    assert Conv(q, g, 1, 5) == 0x22;
    assert Conv(q, g, 1, 6) == 0x22;
    assert Conv(q, g, 1, 7) == 0x22;
    assert Conv(q, g, 1, 8) == 0x22;
    assert Conv(q, g, 1, 9) == 0x22;
    assert Conv(q, g, 1, 10) == 0x22;
    assert Conv(q, g, 1, 11) == 0x22;
  }

  lemma CodewordProductCoefficient2(q: seq<byte>, g: seq<byte>, r: seq<byte>, t: nat)
    requires |q| == 11 && q[0] == 0x7e && q[1] == 0xa8 && q[2] == 0x88 && q[3] == 0x5a && q[4] == 0xe9 && q[5] == 0x16 && q[6] == 0xba && q[7] == 0x0f && q[8] == 0x6e && q[9] == 0xb8 && q[10] == 0x43 && |g| == 5 && g[0] == 0x74 && g[1] == 0xe7 && g[2] == 0xd8 && g[3] == 0x1e && g[4] == 0x01 && |r| == 15 && r[0] == 0xdb && r[1] == 0x22 && r[2] == 0x58 && r[3] == 0x5c && r[4] == 0x44 && r[5] == 0x4f && r[6] == 0x4e && r[7] == 0x27 && r[8] == 0x54 && r[9] == 0x20 && r[10] == 0x50 && r[11] == 0x41 && r[12] == 0x4e && r[13] == 0x49 && r[14] == 0x43 && t == 2
    ensures Conv(q, g, t, 11) == r[t]
  {
    assert Coeff(q, 0) == 0x7e && Coeff(q, 1) == 0xa8 && Coeff(q, 2) == 0x88 && Coeff(q, 3) == 0x5a && Coeff(q, 4) == 0xe9 && Coeff(q, 5) == 0x16 && Coeff(q, 6) == 0xba && Coeff(q, 7) == 0x0f && Coeff(q, 8) == 0x6e && Coeff(q, 9) == 0xb8 && Coeff(q, 10) == 0x43 && Coeff(g, 0) == 0x74 && Coeff(g, 1) == 0xe7 && Coeff(g, 2) == 0xd8 && Coeff(g, 3) == 0x1e && Coeff(g, 4) == 0x01;
    Product7EByD8(Coeff(q, 0), Coeff(g, 2));
    assert Conv(q, g, 2, 1) == 0x63;
    ProductA8ByE7(Coeff(q, 1), Coeff(g, 1));
    Sum63And24(Conv(q, g, 2, 1), Term(q, g, 2, 1));
    assert Conv(q, g, 2, 2) == 0x47;
    Product88By74(Coeff(q, 2), Coeff(g, 0));
    Sum47And1F(Conv(q, g, 2, 2), Term(q, g, 2, 2));
    assert Conv(q, g, 2, 3) == 0x58;
    assert Conv(q, g, 2, 4) == 0x58;
    assert Conv(q, g, 2, 5) == 0x58;
    assert Conv(q, g, 2, 6) == 0x58;
    assert Conv(q, g, 2, 7) == 0x58;
    assert Conv(q, g, 2, 8) == 0x58;
    assert Conv(q, g, 2, 9) == 0x58;
    assert Conv(q, g, 2, 10) == 0x58;
    assert Conv(q, g, 2, 11) == 0x58;
  }

  lemma CodewordProductCoefficient3(q: seq<byte>, g: seq<byte>, r: seq<byte>, t: nat)
    requires |q| == 11 && q[0] == 0x7e && q[1] == 0xa8 && q[2] == 0x88 && q[3] == 0x5a && q[4] == 0xe9 && q[5] == 0x16 && q[6] == 0xba && q[7] == 0x0f && q[8] == 0x6e && q[9] == 0xb8 && q[10] == 0x43 && |g| == 5 && g[0] == 0x74 && g[1] == 0xe7 && g[2] == 0xd8 && g[3] == 0x1e && g[4] == 0x01 && |r| == 15 && r[0] == 0xdb && r[1] == 0x22 && r[2] == 0x58 && r[3] == 0x5c && r[4] == 0x44 && r[5] == 0x4f && r[6] == 0x4e && r[7] == 0x27 && r[8] == 0x54 && r[9] == 0x20 && r[10] == 0x50 && r[11] == 0x41 && r[12] == 0x4e && r[13] == 0x49 && r[14] == 0x43 && t == 3
    ensures Conv(q, g, t, 11) == r[t]
  {
    assert Coeff(q, 0) == 0x7e && Coeff(q, 1) == 0xa8 && Coeff(q, 2) == 0x88 && Coeff(q, 3) == 0x5a && Coeff(q, 4) == 0xe9 && Coeff(q, 5) == 0x16 && Coeff(q, 6) == 0xba && Coeff(q, 7) == 0x0f && Coeff(q, 8) == 0x6e && Coeff(q, 9) == 0xb8 && Coeff(q, 10) == 0x43 && Coeff(g, 0) == 0x74 && Coeff(g, 1) == 0xe7 && Coeff(g, 2) == 0xd8 && Coeff(g, 3) == 0x1e && Coeff(g, 4) == 0x01;
    Product7EBy1E(Coeff(q, 0), Coeff(g, 3));
    assert Conv(q, g, 3, 1) == 0x7d;
    ProductA8ByD8(Coeff(q, 1), Coeff(g, 2));
    Sum7DAnd84(Conv(q, g, 3, 1), Term(q, g, 3, 1));
    assert Conv(q, g, 3, 2) == 0xf9;
    Product88ByE7(Coeff(q, 2), Coeff(g, 1));
    SumF9And95(Conv(q, g, 3, 2), Term(q, g, 3, 2));
    assert Conv(q, g, 3, 3) == 0x6c;
    Product5ABy74(Coeff(q, 3), Coeff(g, 0));
    Sum6CAnd30(Conv(q, g, 3, 3), Term(q, g, 3, 3));
    assert Conv(q, g, 3, 4) == 0x5c;
    assert Conv(q, g, 3, 5) == 0x5c;
    assert Conv(q, g, 3, 6) == 0x5c;
    assert Conv(q, g, 3, 7) == 0x5c;
    assert Conv(q, g, 3, 8) == 0x5c;
    assert Conv(q, g, 3, 9) == 0x5c;
    assert Conv(q, g, 3, 10) == 0x5c;
    assert Conv(q, g, 3, 11) == 0x5c;
  }

  lemma CodewordProductCoefficient4(q: seq<byte>, g: seq<byte>, r: seq<byte>, t: nat)
    requires |q| == 11 && q[0] == 0x7e && q[1] == 0xa8 && q[2] == 0x88 && q[3] == 0x5a && q[4] == 0xe9 && q[5] == 0x16 && q[6] == 0xba && q[7] == 0x0f && q[8] == 0x6e && q[9] == 0xb8 && q[10] == 0x43 && |g| == 5 && g[0] == 0x74 && g[1] == 0xe7 && g[2] == 0xd8 && g[3] == 0x1e && g[4] == 0x01 && |r| == 15 && r[0] == 0xdb && r[1] == 0x22 && r[2] == 0x58 && r[3] == 0x5c && r[4] == 0x44 && r[5] == 0x4f && r[6] == 0x4e && r[7] == 0x27 && r[8] == 0x54 && r[9] == 0x20 && r[10] == 0x50 && r[11] == 0x41 && r[12] == 0x4e && r[13] == 0x49 && r[14] == 0x43 && t == 4
    ensures Conv(q, g, t, 11) == r[t]
  {
    assert Coeff(q, 0) == 0x7e && Coeff(q, 1) == 0xa8 && Coeff(q, 2) == 0x88 && Coeff(q, 3) == 0x5a && Coeff(q, 4) == 0xe9 && Coeff(q, 5) == 0x16 && Coeff(q, 6) == 0xba && Coeff(q, 7) == 0x0f && Coeff(q, 8) == 0x6e && Coeff(q, 9) == 0xb8 && Coeff(q, 10) == 0x43 && Coeff(g, 0) == 0x74 && Coeff(g, 1) == 0xe7 && Coeff(g, 2) == 0xd8 && Coeff(g, 3) == 0x1e && Coeff(g, 4) == 0x01;
    Product7EBy01(Coeff(q, 0), Coeff(g, 4));
    assert Conv(q, g, 4, 1) == 0x7e;
    ProductA8By1E(Coeff(q, 1), Coeff(g, 3));
    Sum7EAndAC(Conv(q, g, 4, 1), Term(q, g, 4, 1));
    assert Conv(q, g, 4, 2) == 0xd2;
    Product88ByD8(Coeff(q, 2), Coeff(g, 2));
    SumD2And86(Conv(q, g, 4, 2), Term(q, g, 4, 2));
    assert Conv(q, g, 4, 3) == 0x54;
    Product5AByE7(Coeff(q, 3), Coeff(g, 1));
    Sum54And11(Conv(q, g, 4, 3), Term(q, g, 4, 3));
    assert Conv(q, g, 4, 4) == 0x45;
    ProductE9By74(Coeff(q, 4), Coeff(g, 0));
    Sum45And01(Conv(q, g, 4, 4), Term(q, g, 4, 4));
    assert Conv(q, g, 4, 5) == 0x44;
    assert Conv(q, g, 4, 6) == 0x44;
    assert Conv(q, g, 4, 7) == 0x44;
    assert Conv(q, g, 4, 8) == 0x44;
    assert Conv(q, g, 4, 9) == 0x44;
    assert Conv(q, g, 4, 10) == 0x44;
    assert Conv(q, g, 4, 11) == 0x44;
  }

  lemma CodewordProductCoefficient5(q: seq<byte>, g: seq<byte>, r: seq<byte>, t: nat)
    requires |q| == 11 && q[0] == 0x7e && q[1] == 0xa8 && q[2] == 0x88 && q[3] == 0x5a && q[4] == 0xe9 && q[5] == 0x16 && q[6] == 0xba && q[7] == 0x0f && q[8] == 0x6e && q[9] == 0xb8 && q[10] == 0x43 && |g| == 5 && g[0] == 0x74 && g[1] == 0xe7 && g[2] == 0xd8 && g[3] == 0x1e && g[4] == 0x01 && |r| == 15 && r[0] == 0xdb && r[1] == 0x22 && r[2] == 0x58 && r[3] == 0x5c && r[4] == 0x44 && r[5] == 0x4f && r[6] == 0x4e && r[7] == 0x27 && r[8] == 0x54 && r[9] == 0x20 && r[10] == 0x50 && r[11] == 0x41 && r[12] == 0x4e && r[13] == 0x49 && r[14] == 0x43 && t == 5
    ensures Conv(q, g, t, 11) == r[t]
  {
    assert Coeff(q, 0) == 0x7e && Coeff(q, 1) == 0xa8 && Coeff(q, 2) == 0x88 && Coeff(q, 3) == 0x5a && Coeff(q, 4) == 0xe9 && Coeff(q, 5) == 0x16 && Coeff(q, 6) == 0xba && Coeff(q, 7) == 0x0f && Coeff(q, 8) == 0x6e && Coeff(q, 9) == 0xb8 && Coeff(q, 10) == 0x43 && Coeff(g, 0) == 0x74 && Coeff(g, 1) == 0xe7 && Coeff(g, 2) == 0xd8 && Coeff(g, 3) == 0x1e && Coeff(g, 4) == 0x01;
    assert Conv(q, g, 5, 1) == 0x00;
    ProductA8By01(Coeff(q, 1), Coeff(g, 4));
    assert Conv(q, g, 5, 2) == 0xa8;
    Product88By1E(Coeff(q, 2), Coeff(g, 3));
    SumA8And4B(Conv(q, g, 5, 2), Term(q, g, 5, 2));
    assert Conv(q, g, 5, 3) == 0xe3;
    Product5AByD8(Coeff(q, 3), Coeff(g, 2));
    SumE3And26(Conv(q, g, 5, 3), Term(q, g, 5, 3));
    assert Conv(q, g, 5, 4) == 0xc5;
    ProductE9ByE7(Coeff(q, 4), Coeff(g, 1));
    SumC5AndBC(Conv(q, g, 5, 4), Term(q, g, 5, 4));
    assert Conv(q, g, 5, 5) == 0x79;
    Product16By74(Coeff(q, 5), Coeff(g, 0));
    Sum79And36(Conv(q, g, 5, 5), Term(q, g, 5, 5));
    assert Conv(q, g, 5, 6) == 0x4f;
    assert Conv(q, g, 5, 7) == 0x4f;
    assert Conv(q, g, 5, 8) == 0x4f;
    assert Conv(q, g, 5, 9) == 0x4f;
    assert Conv(q, g, 5, 10) == 0x4f;
    assert Conv(q, g, 5, 11) == 0x4f;
  }

  lemma CodewordProductCoefficient6(q: seq<byte>, g: seq<byte>, r: seq<byte>, t: nat)
    requires |q| == 11 && q[0] == 0x7e && q[1] == 0xa8 && q[2] == 0x88 && q[3] == 0x5a && q[4] == 0xe9 && q[5] == 0x16 && q[6] == 0xba && q[7] == 0x0f && q[8] == 0x6e && q[9] == 0xb8 && q[10] == 0x43 && |g| == 5 && g[0] == 0x74 && g[1] == 0xe7 && g[2] == 0xd8 && g[3] == 0x1e && g[4] == 0x01 && |r| == 15 && r[0] == 0xdb && r[1] == 0x22 && r[2] == 0x58 && r[3] == 0x5c && r[4] == 0x44 && r[5] == 0x4f && r[6] == 0x4e && r[7] == 0x27 && r[8] == 0x54 && r[9] == 0x20 && r[10] == 0x50 && r[11] == 0x41 && r[12] == 0x4e && r[13] == 0x49 && r[14] == 0x43 && t == 6
    ensures Conv(q, g, t, 11) == r[t]
  {
    assert Coeff(q, 0) == 0x7e && Coeff(q, 1) == 0xa8 && Coeff(q, 2) == 0x88 && Coeff(q, 3) == 0x5a && Coeff(q, 4) == 0xe9 && Coeff(q, 5) == 0x16 && Coeff(q, 6) == 0xba && Coeff(q, 7) == 0x0f && Coeff(q, 8) == 0x6e && Coeff(q, 9) == 0xb8 && Coeff(q, 10) == 0x43 && Coeff(g, 0) == 0x74 && Coeff(g, 1) == 0xe7 && Coeff(g, 2) == 0xd8 && Coeff(g, 3) == 0x1e && Coeff(g, 4) == 0x01;
    assert Conv(q, g, 6, 1) == 0x00;
    assert Conv(q, g, 6, 2) == 0x00;
    Product88By01(Coeff(q, 2), Coeff(g, 4));
    assert Conv(q, g, 6, 3) == 0x88;
    Product5ABy1E(Coeff(q, 3), Coeff(g, 3));
    Sum88AndE2(Conv(q, g, 6, 3), Term(q, g, 6, 3));
    assert Conv(q, g, 6, 4) == 0x6a;
    ProductE9ByD8(Coeff(q, 4), Coeff(g, 2));
    Sum6AAnd58(Conv(q, g, 6, 4), Term(q, g, 6, 4));
    assert Conv(q, g, 6, 5) == 0x32;
    Product16ByE7(Coeff(q, 5), Coeff(g, 1));
    Sum32AndBE(Conv(q, g, 6, 5), Term(q, g, 6, 5));
    assert Conv(q, g, 6, 6) == 0x8c;
    ProductBABy74(Coeff(q, 6), Coeff(g, 0));
    Sum8CAndC2(Conv(q, g, 6, 6), Term(q, g, 6, 6));
    assert Conv(q, g, 6, 7) == 0x4e;
    assert Conv(q, g, 6, 8) == 0x4e;
    assert Conv(q, g, 6, 9) == 0x4e;
    assert Conv(q, g, 6, 10) == 0x4e;
    assert Conv(q, g, 6, 11) == 0x4e;
  }

  lemma CodewordProductCoefficient7(q: seq<byte>, g: seq<byte>, r: seq<byte>, t: nat)
    requires |q| == 11 && q[0] == 0x7e && q[1] == 0xa8 && q[2] == 0x88 && q[3] == 0x5a && q[4] == 0xe9 && q[5] == 0x16 && q[6] == 0xba && q[7] == 0x0f && q[8] == 0x6e && q[9] == 0xb8 && q[10] == 0x43 && |g| == 5 && g[0] == 0x74 && g[1] == 0xe7 && g[2] == 0xd8 && g[3] == 0x1e && g[4] == 0x01 && |r| == 15 && r[0] == 0xdb && r[1] == 0x22 && r[2] == 0x58 && r[3] == 0x5c && r[4] == 0x44 && r[5] == 0x4f && r[6] == 0x4e && r[7] == 0x27 && r[8] == 0x54 && r[9] == 0x20 && r[10] == 0x50 && r[11] == 0x41 && r[12] == 0x4e && r[13] == 0x49 && r[14] == 0x43 && t == 7
    ensures Conv(q, g, t, 11) == r[t]
  {
    assert Coeff(q, 0) == 0x7e && Coeff(q, 1) == 0xa8 && Coeff(q, 2) == 0x88 && Coeff(q, 3) == 0x5a && Coeff(q, 4) == 0xe9 && Coeff(q, 5) == 0x16 && Coeff(q, 6) == 0xba && Coeff(q, 7) == 0x0f && Coeff(q, 8) == 0x6e && Coeff(q, 9) == 0xb8 && Coeff(q, 10) == 0x43 && Coeff(g, 0) == 0x74 && Coeff(g, 1) == 0xe7 && Coeff(g, 2) == 0xd8 && Coeff(g, 3) == 0x1e && Coeff(g, 4) == 0x01;
    assert Conv(q, g, 7, 1) == 0x00;
    assert Conv(q, g, 7, 2) == 0x00;
    assert Conv(q, g, 7, 3) == 0x00;
    Product5ABy01(Coeff(q, 3), Coeff(g, 4));
    assert Conv(q, g, 7, 4) == 0x5a;
    ProductE9By1E(Coeff(q, 4), Coeff(g, 3));
    Sum5AAnd61(Conv(q, g, 7, 4), Term(q, g, 7, 4));
    assert Conv(q, g, 7, 5) == 0x3b;
    Product16ByD8(Coeff(q, 5), Coeff(g, 2));
    Sum3BAndEB(Conv(q, g, 7, 5), Term(q, g, 7, 5));
    assert Conv(q, g, 7, 6) == 0xd0;
    ProductBAByE7(Coeff(q, 6), Coeff(g, 1));
    SumD0And21(Conv(q, g, 7, 6), Term(q, g, 7, 6));
    assert Conv(q, g, 7, 7) == 0xf1;
    Product0FBy74(Coeff(q, 7), Coeff(g, 0));
    SumF1AndD6(Conv(q, g, 7, 7), Term(q, g, 7, 7));
    assert Conv(q, g, 7, 8) == 0x27;
    assert Conv(q, g, 7, 9) == 0x27;
    assert Conv(q, g, 7, 10) == 0x27;
    assert Conv(q, g, 7, 11) == 0x27;
  }

  lemma CodewordProductCoefficient8(q: seq<byte>, g: seq<byte>, r: seq<byte>, t: nat)
    requires |q| == 11 && q[0] == 0x7e && q[1] == 0xa8 && q[2] == 0x88 && q[3] == 0x5a && q[4] == 0xe9 && q[5] == 0x16 && q[6] == 0xba && q[7] == 0x0f && q[8] == 0x6e && q[9] == 0xb8 && q[10] == 0x43 && |g| == 5 && g[0] == 0x74 && g[1] == 0xe7 && g[2] == 0xd8 && g[3] == 0x1e && g[4] == 0x01 && |r| == 15 && r[0] == 0xdb && r[1] == 0x22 && r[2] == 0x58 && r[3] == 0x5c && r[4] == 0x44 && r[5] == 0x4f && r[6] == 0x4e && r[7] == 0x27 && r[8] == 0x54 && r[9] == 0x20 && r[10] == 0x50 && r[11] == 0x41 && r[12] == 0x4e && r[13] == 0x49 && r[14] == 0x43 && t == 8
    ensures Conv(q, g, t, 11) == r[t]
  {
    assert Coeff(q, 0) == 0x7e && Coeff(q, 1) == 0xa8 && Coeff(q, 2) == 0x88 && Coeff(q, 3) == 0x5a && Coeff(q, 4) == 0xe9 && Coeff(q, 5) == 0x16 && Coeff(q, 6) == 0xba && Coeff(q, 7) == 0x0f && Coeff(q, 8) == 0x6e && Coeff(q, 9) == 0xb8 && Coeff(q, 10) == 0x43 && Coeff(g, 0) == 0x74 && Coeff(g, 1) == 0xe7 && Coeff(g, 2) == 0xd8 && Coeff(g, 3) == 0x1e && Coeff(g, 4) == 0x01;
    assert Conv(q, g, 8, 1) == 0x00;
    assert Conv(q, g, 8, 2) == 0x00;
    assert Conv(q, g, 8, 3) == 0x00;
    assert Conv(q, g, 8, 4) == 0x00;
    ProductE9By01(Coeff(q, 4), Coeff(g, 4));
    assert Conv(q, g, 8, 5) == 0xe9;
    Product16By1E(Coeff(q, 5), Coeff(g, 3));
    SumE9AndB9(Conv(q, g, 8, 5), Term(q, g, 8, 5));
    assert Conv(q, g, 8, 6) == 0x50;
    ProductBAByD8(Coeff(q, 6), Coeff(g, 2));
    Sum50And28(Conv(q, g, 8, 6), Term(q, g, 8, 6));
    assert Conv(q, g, 8, 7) == 0x78;
    Product0FByE7(Coeff(q, 7), Coeff(g, 1));
    Sum78AndE4(Conv(q, g, 8, 7), Term(q, g, 8, 7));
    assert Conv(q, g, 8, 8) == 0x9c;
    Product6EBy74(Coeff(q, 8), Coeff(g, 0));
    Sum9CAndC8(Conv(q, g, 8, 8), Term(q, g, 8, 8));
    assert Conv(q, g, 8, 9) == 0x54;
    assert Conv(q, g, 8, 10) == 0x54;
    assert Conv(q, g, 8, 11) == 0x54;
  }

  lemma CodewordProductCoefficient9(q: seq<byte>, g: seq<byte>, r: seq<byte>, t: nat)
    requires |q| == 11 && q[0] == 0x7e && q[1] == 0xa8 && q[2] == 0x88 && q[3] == 0x5a && q[4] == 0xe9 && q[5] == 0x16 && q[6] == 0xba && q[7] == 0x0f && q[8] == 0x6e && q[9] == 0xb8 && q[10] == 0x43 && |g| == 5 && g[0] == 0x74 && g[1] == 0xe7 && g[2] == 0xd8 && g[3] == 0x1e && g[4] == 0x01 && |r| == 15 && r[0] == 0xdb && r[1] == 0x22 && r[2] == 0x58 && r[3] == 0x5c && r[4] == 0x44 && r[5] == 0x4f && r[6] == 0x4e && r[7] == 0x27 && r[8] == 0x54 && r[9] == 0x20 && r[10] == 0x50 && r[11] == 0x41 && r[12] == 0x4e && r[13] == 0x49 && r[14] == 0x43 && t == 9
    ensures Conv(q, g, t, 11) == r[t]
  {
    assert Coeff(q, 0) == 0x7e && Coeff(q, 1) == 0xa8 && Coeff(q, 2) == 0x88 && Coeff(q, 3) == 0x5a && Coeff(q, 4) == 0xe9 && Coeff(q, 5) == 0x16 && Coeff(q, 6) == 0xba && Coeff(q, 7) == 0x0f && Coeff(q, 8) == 0x6e && Coeff(q, 9) == 0xb8 && Coeff(q, 10) == 0x43 && Coeff(g, 0) == 0x74 && Coeff(g, 1) == 0xe7 && Coeff(g, 2) == 0xd8 && Coeff(g, 3) == 0x1e && Coeff(g, 4) == 0x01;
    assert Conv(q, g, 9, 1) == 0x00;
    assert Conv(q, g, 9, 2) == 0x00;
    assert Conv(q, g, 9, 3) == 0x00;
    assert Conv(q, g, 9, 4) == 0x00;
    assert Conv(q, g, 9, 5) == 0x00;
    Product16By01(Coeff(q, 5), Coeff(g, 4));
    assert Conv(q, g, 9, 6) == 0x16;
    ProductBABy1E(Coeff(q, 6), Coeff(g, 3));
    Sum16And6D(Conv(q, g, 9, 6), Term(q, g, 9, 6));
    assert Conv(q, g, 9, 7) == 0x7b;
    Product0FByD8(Coeff(q, 7), Coeff(g, 2));
    Sum7BAndBC(Conv(q, g, 9, 7), Term(q, g, 9, 7));
    assert Conv(q, g, 9, 8) == 0xc7;
    Product6EByE7(Coeff(q, 8), Coeff(g, 1));
    SumC7AndCD(Conv(q, g, 9, 8), Term(q, g, 9, 8));
    assert Conv(q, g, 9, 9) == 0x0a;
    ProductB8By74(Coeff(q, 9), Coeff(g, 0));
    Sum0AAnd2A(Conv(q, g, 9, 9), Term(q, g, 9, 9));
    assert Conv(q, g, 9, 10) == 0x20;
    assert Conv(q, g, 9, 11) == 0x20;
  }

  lemma CodewordProductCoefficient10(q: seq<byte>, g: seq<byte>, r: seq<byte>, t: nat)
    requires |q| == 11 && q[0] == 0x7e && q[1] == 0xa8 && q[2] == 0x88 && q[3] == 0x5a && q[4] == 0xe9 && q[5] == 0x16 && q[6] == 0xba && q[7] == 0x0f && q[8] == 0x6e && q[9] == 0xb8 && q[10] == 0x43 && |g| == 5 && g[0] == 0x74 && g[1] == 0xe7 && g[2] == 0xd8 && g[3] == 0x1e && g[4] == 0x01 && |r| == 15 && r[0] == 0xdb && r[1] == 0x22 && r[2] == 0x58 && r[3] == 0x5c && r[4] == 0x44 && r[5] == 0x4f && r[6] == 0x4e && r[7] == 0x27 && r[8] == 0x54 && r[9] == 0x20 && r[10] == 0x50 && r[11] == 0x41 && r[12] == 0x4e && r[13] == 0x49 && r[14] == 0x43 && t == 10
    ensures Conv(q, g, t, 11) == r[t]
  {
    assert Coeff(q, 0) == 0x7e && Coeff(q, 1) == 0xa8 && Coeff(q, 2) == 0x88 && Coeff(q, 3) == 0x5a && Coeff(q, 4) == 0xe9 && Coeff(q, 5) == 0x16 && Coeff(q, 6) == 0xba && Coeff(q, 7) == 0x0f && Coeff(q, 8) == 0x6e && Coeff(q, 9) == 0xb8 && Coeff(q, 10) == 0x43 && Coeff(g, 0) == 0x74 && Coeff(g, 1) == 0xe7 && Coeff(g, 2) == 0xd8 && Coeff(g, 3) == 0x1e && Coeff(g, 4) == 0x01;
    assert Conv(q, g, 10, 1) == 0x00;
    assert Conv(q, g, 10, 2) == 0x00;
    assert Conv(q, g, 10, 3) == 0x00;
    assert Conv(q, g, 10, 4) == 0x00;
    assert Conv(q, g, 10, 5) == 0x00;
    assert Conv(q, g, 10, 6) == 0x00;
    ProductBABy01(Coeff(q, 6), Coeff(g, 4));
    assert Conv(q, g, 10, 7) == 0xba;
    Product0FBy1E(Coeff(q, 7), Coeff(g, 3));
    SumBAAndAA(Conv(q, g, 10, 7), Term(q, g, 10, 7));
    assert Conv(q, g, 10, 8) == 0x10;
    Product6EByD8(Coeff(q, 8), Coeff(g, 2));
    Sum10And62(Conv(q, g, 10, 8), Term(q, g, 10, 8));
    assert Conv(q, g, 10, 9) == 0x72;
    ProductB8ByE7(Coeff(q, 9), Coeff(g, 1));
    Sum72AndF2(Conv(q, g, 10, 9), Term(q, g, 10, 9));
    assert Conv(q, g, 10, 10) == 0x80;
    Product43By74(Coeff(q, 10), Coeff(g, 0));
    Sum80AndD0(Conv(q, g, 10, 10), Term(q, g, 10, 10));
    assert Conv(q, g, 10, 11) == 0x50;
  }

  lemma CodewordProductCoefficient11(q: seq<byte>, g: seq<byte>, r: seq<byte>, t: nat)
    requires |q| == 11 && q[0] == 0x7e && q[1] == 0xa8 && q[2] == 0x88 && q[3] == 0x5a && q[4] == 0xe9 && q[5] == 0x16 && q[6] == 0xba && q[7] == 0x0f && q[8] == 0x6e && q[9] == 0xb8 && q[10] == 0x43 && |g| == 5 && g[0] == 0x74 && g[1] == 0xe7 && g[2] == 0xd8 && g[3] == 0x1e && g[4] == 0x01 && |r| == 15 && r[0] == 0xdb && r[1] == 0x22 && r[2] == 0x58 && r[3] == 0x5c && r[4] == 0x44 && r[5] == 0x4f && r[6] == 0x4e && r[7] == 0x27 && r[8] == 0x54 && r[9] == 0x20 && r[10] == 0x50 && r[11] == 0x41 && r[12] == 0x4e && r[13] == 0x49 && r[14] == 0x43 && t == 11
    ensures Conv(q, g, t, 11) == r[t]
  {
    assert Coeff(q, 0) == 0x7e && Coeff(q, 1) == 0xa8 && Coeff(q, 2) == 0x88 && Coeff(q, 3) == 0x5a && Coeff(q, 4) == 0xe9 && Coeff(q, 5) == 0x16 && Coeff(q, 6) == 0xba && Coeff(q, 7) == 0x0f && Coeff(q, 8) == 0x6e && Coeff(q, 9) == 0xb8 && Coeff(q, 10) == 0x43 && Coeff(g, 0) == 0x74 && Coeff(g, 1) == 0xe7 && Coeff(g, 2) == 0xd8 && Coeff(g, 3) == 0x1e && Coeff(g, 4) == 0x01;
    assert Conv(q, g, 11, 1) == 0x00;
    assert Conv(q, g, 11, 2) == 0x00;
    assert Conv(q, g, 11, 3) == 0x00;
    assert Conv(q, g, 11, 4) == 0x00;
    assert Conv(q, g, 11, 5) == 0x00;
    assert Conv(q, g, 11, 6) == 0x00;
    assert Conv(q, g, 11, 7) == 0x00;
    Product0FBy01(Coeff(q, 7), Coeff(g, 4));
    assert Conv(q, g, 11, 8) == 0x0f;
    Product6EBy1E(Coeff(q, 8), Coeff(g, 3));
    Sum0FAnd80(Conv(q, g, 11, 8), Term(q, g, 11, 8));
    assert Conv(q, g, 11, 9) == 0x8f;
    ProductB8ByD8(Coeff(q, 9), Coeff(g, 2));
    Sum8FAnd85(Conv(q, g, 11, 9), Term(q, g, 11, 9));
    assert Conv(q, g, 11, 10) == 0x0a;
    Product43ByE7(Coeff(q, 10), Coeff(g, 1));
    Sum0AAnd4B(Conv(q, g, 11, 10), Term(q, g, 11, 10));
    assert Conv(q, g, 11, 11) == 0x41;
  }

  lemma CodewordProductCoefficient12(q: seq<byte>, g: seq<byte>, r: seq<byte>, t: nat)
    requires |q| == 11 && q[0] == 0x7e && q[1] == 0xa8 && q[2] == 0x88 && q[3] == 0x5a && q[4] == 0xe9 && q[5] == 0x16 && q[6] == 0xba && q[7] == 0x0f && q[8] == 0x6e && q[9] == 0xb8 && q[10] == 0x43 && |g| == 5 && g[0] == 0x74 && g[1] == 0xe7 && g[2] == 0xd8 && g[3] == 0x1e && g[4] == 0x01 && |r| == 15 && r[0] == 0xdb && r[1] == 0x22 && r[2] == 0x58 && r[3] == 0x5c && r[4] == 0x44 && r[5] == 0x4f && r[6] == 0x4e && r[7] == 0x27 && r[8] == 0x54 && r[9] == 0x20 && r[10] == 0x50 && r[11] == 0x41 && r[12] == 0x4e && r[13] == 0x49 && r[14] == 0x43 && t == 12
    ensures Conv(q, g, t, 11) == r[t]
  {
    assert Coeff(q, 0) == 0x7e && Coeff(q, 1) == 0xa8 && Coeff(q, 2) == 0x88 && Coeff(q, 3) == 0x5a && Coeff(q, 4) == 0xe9 && Coeff(q, 5) == 0x16 && Coeff(q, 6) == 0xba && Coeff(q, 7) == 0x0f && Coeff(q, 8) == 0x6e && Coeff(q, 9) == 0xb8 && Coeff(q, 10) == 0x43 && Coeff(g, 0) == 0x74 && Coeff(g, 1) == 0xe7 && Coeff(g, 2) == 0xd8 && Coeff(g, 3) == 0x1e && Coeff(g, 4) == 0x01;
    assert Conv(q, g, 12, 1) == 0x00;
    assert Conv(q, g, 12, 2) == 0x00;
    assert Conv(q, g, 12, 3) == 0x00;
    assert Conv(q, g, 12, 4) == 0x00;
    assert Conv(q, g, 12, 5) == 0x00;
    assert Conv(q, g, 12, 6) == 0x00;
    assert Conv(q, g, 12, 7) == 0x00;
    assert Conv(q, g, 12, 8) == 0x00;
    Product6EBy01(Coeff(q, 8), Coeff(g, 4));
    assert Conv(q, g, 12, 9) == 0x6e;
    ProductB8By1E(Coeff(q, 9), Coeff(g, 3));
    Sum6EAnd51(Conv(q, g, 12, 9), Term(q, g, 12, 9));
    assert Conv(q, g, 12, 10) == 0x3f;
    Product43ByD8(Coeff(q, 10), Coeff(g, 2));
    Sum3FAnd71(Conv(q, g, 12, 10), Term(q, g, 12, 10));
    assert Conv(q, g, 12, 11) == 0x4e;
  }

  lemma CodewordProductCoefficient13(q: seq<byte>, g: seq<byte>, r: seq<byte>, t: nat)
    requires |q| == 11 && q[0] == 0x7e && q[1] == 0xa8 && q[2] == 0x88 && q[3] == 0x5a && q[4] == 0xe9 && q[5] == 0x16 && q[6] == 0xba && q[7] == 0x0f && q[8] == 0x6e && q[9] == 0xb8 && q[10] == 0x43 && |g| == 5 && g[0] == 0x74 && g[1] == 0xe7 && g[2] == 0xd8 && g[3] == 0x1e && g[4] == 0x01 && |r| == 15 && r[0] == 0xdb && r[1] == 0x22 && r[2] == 0x58 && r[3] == 0x5c && r[4] == 0x44 && r[5] == 0x4f && r[6] == 0x4e && r[7] == 0x27 && r[8] == 0x54 && r[9] == 0x20 && r[10] == 0x50 && r[11] == 0x41 && r[12] == 0x4e && r[13] == 0x49 && r[14] == 0x43 && t == 13
    ensures Conv(q, g, t, 11) == r[t]
  {
    assert Coeff(q, 0) == 0x7e && Coeff(q, 1) == 0xa8 && Coeff(q, 2) == 0x88 && Coeff(q, 3) == 0x5a && Coeff(q, 4) == 0xe9 && Coeff(q, 5) == 0x16 && Coeff(q, 6) == 0xba && Coeff(q, 7) == 0x0f && Coeff(q, 8) == 0x6e && Coeff(q, 9) == 0xb8 && Coeff(q, 10) == 0x43 && Coeff(g, 0) == 0x74 && Coeff(g, 1) == 0xe7 && Coeff(g, 2) == 0xd8 && Coeff(g, 3) == 0x1e && Coeff(g, 4) == 0x01;
    assert Conv(q, g, 13, 1) == 0x00;
    assert Conv(q, g, 13, 2) == 0x00;
    assert Conv(q, g, 13, 3) == 0x00;
    assert Conv(q, g, 13, 4) == 0x00;
    assert Conv(q, g, 13, 5) == 0x00;
    assert Conv(q, g, 13, 6) == 0x00;
    assert Conv(q, g, 13, 7) == 0x00;
    assert Conv(q, g, 13, 8) == 0x00;
    assert Conv(q, g, 13, 9) == 0x00;
    ProductB8By01(Coeff(q, 9), Coeff(g, 4));
    assert Conv(q, g, 13, 10) == 0xb8;
    Product43By1E(Coeff(q, 10), Coeff(g, 3));
    SumB8AndF1(Conv(q, g, 13, 10), Term(q, g, 13, 10));
    assert Conv(q, g, 13, 11) == 0x49;
  }

  lemma CodewordProductCoefficient14(q: seq<byte>, g: seq<byte>, r: seq<byte>, t: nat)
    requires |q| == 11 && q[0] == 0x7e && q[1] == 0xa8 && q[2] == 0x88 && q[3] == 0x5a && q[4] == 0xe9 && q[5] == 0x16 && q[6] == 0xba && q[7] == 0x0f && q[8] == 0x6e && q[9] == 0xb8 && q[10] == 0x43 && |g| == 5 && g[0] == 0x74 && g[1] == 0xe7 && g[2] == 0xd8 && g[3] == 0x1e && g[4] == 0x01 && |r| == 15 && r[0] == 0xdb && r[1] == 0x22 && r[2] == 0x58 && r[3] == 0x5c && r[4] == 0x44 && r[5] == 0x4f && r[6] == 0x4e && r[7] == 0x27 && r[8] == 0x54 && r[9] == 0x20 && r[10] == 0x50 && r[11] == 0x41 && r[12] == 0x4e && r[13] == 0x49 && r[14] == 0x43 && t == 14
    ensures Conv(q, g, t, 11) == r[t]
  {
    assert Coeff(q, 0) == 0x7e && Coeff(q, 1) == 0xa8 && Coeff(q, 2) == 0x88 && Coeff(q, 3) == 0x5a && Coeff(q, 4) == 0xe9 && Coeff(q, 5) == 0x16 && Coeff(q, 6) == 0xba && Coeff(q, 7) == 0x0f && Coeff(q, 8) == 0x6e && Coeff(q, 9) == 0xb8 && Coeff(q, 10) == 0x43 && Coeff(g, 0) == 0x74 && Coeff(g, 1) == 0xe7 && Coeff(g, 2) == 0xd8 && Coeff(g, 3) == 0x1e && Coeff(g, 4) == 0x01;
    assert Conv(q, g, 14, 1) == 0x00;
    assert Conv(q, g, 14, 2) == 0x00;
    assert Conv(q, g, 14, 3) == 0x00;
    assert Conv(q, g, 14, 4) == 0x00;
    assert Conv(q, g, 14, 5) == 0x00;
    assert Conv(q, g, 14, 6) == 0x00;
    assert Conv(q, g, 14, 7) == 0x00;
    assert Conv(q, g, 14, 8) == 0x00;
    assert Conv(q, g, 14, 9) == 0x00;
    assert Conv(q, g, 14, 10) == 0x00;
    Product43By01(Coeff(q, 10), Coeff(g, 4));
    assert Conv(q, g, 14, 11) == 0x43;
  }

  lemma CodewordProductCoefficients0To3(q: seq<byte>, g: seq<byte>, r: seq<byte>, t: nat)
    requires |q| == 11 && q[0] == 0x7e && q[1] == 0xa8 && q[2] == 0x88 && q[3] == 0x5a && q[4] == 0xe9 && q[5] == 0x16 && q[6] == 0xba && q[7] == 0x0f && q[8] == 0x6e && q[9] == 0xb8 && q[10] == 0x43 && |g| == 5 && g[0] == 0x74 && g[1] == 0xe7 && g[2] == 0xd8 && g[3] == 0x1e && g[4] == 0x01 && |r| == 15 && r[0] == 0xdb && r[1] == 0x22 && r[2] == 0x58 && r[3] == 0x5c && r[4] == 0x44 && r[5] == 0x4f && r[6] == 0x4e && r[7] == 0x27 && r[8] == 0x54 && r[9] == 0x20 && r[10] == 0x50 && r[11] == 0x41 && r[12] == 0x4e && r[13] == 0x49 && r[14] == 0x43 && t < 4
    ensures Conv(q, g, t, 11) == r[t]
  {
    if t == 0 {
      CodewordProductCoefficient0(q, g, r, t);
    } else if t == 1 {
      CodewordProductCoefficient1(q, g, r, t);
    } else if t == 2 {
      CodewordProductCoefficient2(q, g, r, t);
    } else {
      CodewordProductCoefficient3(q, g, r, t);
    }
  }

  lemma CodewordProductCoefficients4To7(q: seq<byte>, g: seq<byte>, r: seq<byte>, t: nat)
    requires |q| == 11 && q[0] == 0x7e && q[1] == 0xa8 && q[2] == 0x88 && q[3] == 0x5a && q[4] == 0xe9 && q[5] == 0x16 && q[6] == 0xba && q[7] == 0x0f && q[8] == 0x6e && q[9] == 0xb8 && q[10] == 0x43 && |g| == 5 && g[0] == 0x74 && g[1] == 0xe7 && g[2] == 0xd8 && g[3] == 0x1e && g[4] == 0x01 && |r| == 15 && r[0] == 0xdb && r[1] == 0x22 && r[2] == 0x58 && r[3] == 0x5c && r[4] == 0x44 && r[5] == 0x4f && r[6] == 0x4e && r[7] == 0x27 && r[8] == 0x54 && r[9] == 0x20 && r[10] == 0x50 && r[11] == 0x41 && r[12] == 0x4e && r[13] == 0x49 && r[14] == 0x43 && 4 <= t < 8
    ensures Conv(q, g, t, 11) == r[t]
  {
    if t == 4 {
      CodewordProductCoefficient4(q, g, r, t);
    } else if t == 5 {
      CodewordProductCoefficient5(q, g, r, t);
    } else if t == 6 {
      CodewordProductCoefficient6(q, g, r, t);
    } else {
      CodewordProductCoefficient7(q, g, r, t);
    }
  }

  lemma CodewordProductCoefficients8To11(q: seq<byte>, g: seq<byte>, r: seq<byte>, t: nat)
    requires |q| == 11 && q[0] == 0x7e && q[1] == 0xa8 && q[2] == 0x88 && q[3] == 0x5a && q[4] == 0xe9 && q[5] == 0x16 && q[6] == 0xba && q[7] == 0x0f && q[8] == 0x6e && q[9] == 0xb8 && q[10] == 0x43 && |g| == 5 && g[0] == 0x74 && g[1] == 0xe7 && g[2] == 0xd8 && g[3] == 0x1e && g[4] == 0x01 && |r| == 15 && r[0] == 0xdb && r[1] == 0x22 && r[2] == 0x58 && r[3] == 0x5c && r[4] == 0x44 && r[5] == 0x4f && r[6] == 0x4e && r[7] == 0x27 && r[8] == 0x54 && r[9] == 0x20 && r[10] == 0x50 && r[11] == 0x41 && r[12] == 0x4e && r[13] == 0x49 && r[14] == 0x43 && 8 <= t < 12
    ensures Conv(q, g, t, 11) == r[t]
  {
    if t == 8 {
      CodewordProductCoefficient8(q, g, r, t);
    } else if t == 9 {
      CodewordProductCoefficient9(q, g, r, t);
    } else if t == 10 {
      CodewordProductCoefficient10(q, g, r, t);
    } else {
      CodewordProductCoefficient11(q, g, r, t);
    }
  }

  lemma CodewordProductCoefficients12To14(q: seq<byte>, g: seq<byte>, r: seq<byte>, t: nat)
    requires |q| == 11 && q[0] == 0x7e && q[1] == 0xa8 && q[2] == 0x88 && q[3] == 0x5a && q[4] == 0xe9 && q[5] == 0x16 && q[6] == 0xba && q[7] == 0x0f && q[8] == 0x6e && q[9] == 0xb8 && q[10] == 0x43 && |g| == 5 && g[0] == 0x74 && g[1] == 0xe7 && g[2] == 0xd8 && g[3] == 0x1e && g[4] == 0x01 && |r| == 15 && r[0] == 0xdb && r[1] == 0x22 && r[2] == 0x58 && r[3] == 0x5c && r[4] == 0x44 && r[5] == 0x4f && r[6] == 0x4e && r[7] == 0x27 && r[8] == 0x54 && r[9] == 0x20 && r[10] == 0x50 && r[11] == 0x41 && r[12] == 0x4e && r[13] == 0x49 && r[14] == 0x43 && 12 <= t < 15
    ensures Conv(q, g, t, 11) == r[t]
  {
    if t == 12 {
      CodewordProductCoefficient12(q, g, r, t);
    } else if t == 13 {
      CodewordProductCoefficient13(q, g, r, t);
    } else {
      CodewordProductCoefficient14(q, g, r, t);
    }
  }

  lemma CodewordProductCoefficientAt(q: seq<byte>, g: seq<byte>, r: seq<byte>, t: nat)
    requires |q| == 11 && q[0] == 0x7e && q[1] == 0xa8 && q[2] == 0x88 && q[3] == 0x5a && q[4] == 0xe9 && q[5] == 0x16 && q[6] == 0xba && q[7] == 0x0f && q[8] == 0x6e && q[9] == 0xb8 && q[10] == 0x43 && |g| == 5 && g[0] == 0x74 && g[1] == 0xe7 && g[2] == 0xd8 && g[3] == 0x1e && g[4] == 0x01 && |r| == 15 && r[0] == 0xdb && r[1] == 0x22 && r[2] == 0x58 && r[3] == 0x5c && r[4] == 0x44 && r[5] == 0x4f && r[6] == 0x4e && r[7] == 0x27 && r[8] == 0x54 && r[9] == 0x20 && r[10] == 0x50 && r[11] == 0x41 && r[12] == 0x4e && r[13] == 0x49 && r[14] == 0x43 && t < 15
    ensures Conv(q, g, t, 11) == r[t]
  {
    if t < 4 {
      CodewordProductCoefficients0To3(q, g, r, t);
    } else if t < 8 {
      CodewordProductCoefficients4To7(q, g, r, t);
    } else if t < 12 {
      CodewordProductCoefficients8To11(q, g, r, t);
    } else {
      CodewordProductCoefficients12To14(q, g, r, t);
    }
  }

  /** The quotient of the shifted message by the generator, times the generator: the codeword. */
  lemma CodewordProduct(q: seq<byte>, g: seq<byte>)
    requires q == [0x7e, 0xa8, 0x88, 0x5a, 0xe9, 0x16, 0xba, 0x0f, 0x6e, 0xb8, 0x43] && g == [0x74, 0xe7, 0xd8, 0x1e, 0x01]
    ensures Mul(q, g) == [0xdb, 0x22, 0x58, 0x5c, 0x44, 0x4f, 0x4e, 0x27, 0x54, 0x20, 0x50, 0x41, 0x4e, 0x49, 0x43]
  {
    var r := [0xdb, 0x22, 0x58, 0x5c, 0x44, 0x4f, 0x4e, 0x27, 0x54, 0x20, 0x50, 0x41, 0x4e, 0x49, 0x43];
    assert |q| == 11 && q[0] == 0x7e && q[1] == 0xa8 && q[2] == 0x88 && q[3] == 0x5a && q[4] == 0xe9 && q[5] == 0x16 && q[6] == 0xba && q[7] == 0x0f && q[8] == 0x6e && q[9] == 0xb8 && q[10] == 0x43 && |g| == 5 && g[0] == 0x74 && g[1] == 0xe7 && g[2] == 0xd8 && g[3] == 0x1e && g[4] == 0x01 && |r| == 15 && r[0] == 0xdb && r[1] == 0x22 && r[2] == 0x58 && r[3] == 0x5c && r[4] == 0x44 && r[5] == 0x4f && r[6] == 0x4e && r[7] == 0x27 && r[8] == 0x54 && r[9] == 0x20 && r[10] == 0x50 && r[11] == 0x41 && r[12] == 0x4e && r[13] == 0x49 && r[14] == 0x43;
    forall t | 0 <= t < 15
      ensures Conv(q, g, t, 11) == r[t]
    {
      CodewordProductCoefficientAt(q, g, r, t);
    }
    PolynomialVectors.MulByCoefficients(q, g, r);
  }

  /** The shifted message m(x) x^4 has four zero coefficients below the message. */
  lemma ShiftedVector(k: nat, message: seq<byte>, s: seq<byte>)
    requires k == 4 && message == [0x44, 0x4f, 0x4e, 0x27, 0x54, 0x20, 0x50, 0x41, 0x4e, 0x49, 0x43]
    requires s == [0x00, 0x00, 0x00, 0x00, 0x44, 0x4f, 0x4e, 0x27, 0x54, 0x20, 0x50, 0x41, 0x4e, 0x49, 0x43]
    ensures Encoding.Shifted(k, message) == s
  {
    assert Trim(message) == message;
    PolynomialVectors.MulByPowerOfX(message, Monomial(1, k), k);
    assert seq(4, _ => 0) + message == s;
  }

  /** Dividing the shifted message by the generator leaves the parity bytes: the quotient times
      the generator is the codeword, and adding the parity bytes to it cancels them. */
  lemma ShiftedDivisionVector(s: seq<byte>, g: seq<byte>, q: seq<byte>, parity: seq<byte>)
    requires s == [0x00, 0x00, 0x00, 0x00, 0x44, 0x4f, 0x4e, 0x27, 0x54, 0x20, 0x50, 0x41, 0x4e, 0x49, 0x43]
    requires g == [0x74, 0xe7, 0xd8, 0x1e, 0x01] && q == [0x7e, 0xa8, 0x88, 0x5a, 0xe9, 0x16, 0xba, 0x0f, 0x6e, 0xb8, 0x43] && parity == [0xdb, 0x22, 0x58, 0x5c]
    ensures PolynomialDivision.DivRem(s, g) == Ok((q, parity))
  {
    var codeword := [0xdb, 0x22, 0x58, 0x5c, 0x44, 0x4f, 0x4e, 0x27, 0x54, 0x20, 0x50, 0x41, 0x4e, 0x49, 0x43];
    CodewordProduct(q, g);
    forall i | 0 <= i < 15
      ensures Add(Coeff(codeword, i), Coeff(parity, i)) == Coeff(s, i)
    {
      if i < 4 {
        AddSelf(Coeff(parity, i));
      }
    }
    PolynomialVectors.SumByCoefficients(codeword, parity, s);
    PolynomialDivision.DivRemUnique(s, g, q, parity);
  }

  lemma Concatenation(parity: seq<byte>, message: seq<byte>, codeword: seq<byte>)
    requires parity == [0xdb, 0x22, 0x58, 0x5c] && message == [0x44, 0x4f, 0x4e, 0x27, 0x54, 0x20, 0x50, 0x41, 0x4e, 0x49, 0x43]
    requires codeword == [0xdb, 0x22, 0x58, 0x5c, 0x44, 0x4f, 0x4e, 0x27, 0x54, 0x20, 0x50, 0x41, 0x4e, 0x49, 0x43]
    ensures parity + message == codeword
  {
    assert |parity + message| == |codeword|;
    forall i | 0 <= i < |codeword|
      ensures (parity + message)[i] == codeword[i]
    {
      if i < |parity| {
      }
    }
  }

  /** An encoding is its parity bytes, when there are k of them, followed by the message; when
      the message ends in a nonzero byte, the encoder as written agrees. */
  lemma EncodeWithParity(k: nat, message: seq<byte>, parity: seq<byte>, codeword: seq<byte>)
    requires message != [] && message[|message| - 1] != 0
    requires Encoding.Parity(k, message) == parity && |parity| == k
    requires codeword == parity + message
    ensures Encoding.Encode(k, message) == Ok(codeword)
    ensures Encoding.EncodeAsWritten(k, message) == Ok(codeword)
  {
    assert Encoding.Pad(parity, k) == parity;
    Encoding.EncodeAsWrittenSystematic(k, message);
  }

  /** Encode with four parity bytes on the bytes of "DON'T PANIC": the parity bytes
      0xdb 0x22 0x58 0x5c followed by the message, from the corrected encoder and from the
      encoder as written alike. */
  lemma EncodeVector(k: nat, message: seq<byte>)
    requires k == 4 && message == [0x44, 0x4f, 0x4e, 0x27, 0x54, 0x20, 0x50, 0x41, 0x4e, 0x49, 0x43]
    ensures Encoding.Encode(k, message) == Ok([0xdb, 0x22, 0x58, 0x5c, 0x44, 0x4f, 0x4e, 0x27, 0x54, 0x20, 0x50, 0x41, 0x4e, 0x49, 0x43])
    ensures Encoding.EncodeAsWritten(k, message) == Ok([0xdb, 0x22, 0x58, 0x5c, 0x44, 0x4f, 0x4e, 0x27, 0x54, 0x20, 0x50, 0x41, 0x4e, 0x49, 0x43])
  {
    var s, g, q, parity := [0x00, 0x00, 0x00, 0x00, 0x44, 0x4f, 0x4e, 0x27, 0x54, 0x20, 0x50, 0x41, 0x4e, 0x49, 0x43], [0x74, 0xe7, 0xd8, 0x1e, 0x01], [0x7e, 0xa8, 0x88, 0x5a, 0xe9, 0x16, 0xba, 0x0f, 0x6e, 0xb8, 0x43], [0xdb, 0x22, 0x58, 0x5c];
    PolynomialVectors.GeneratorVector(k);
    ShiftedVector(k, message, s);
    ShiftedDivisionVector(s, g, q, parity);
    Encoding.DivideShifted(k, message);
    Concatenation(parity, message, [0xdb, 0x22, 0x58, 0x5c, 0x44, 0x4f, 0x4e, 0x27, 0x54, 0x20, 0x50, 0x41, 0x4e, 0x49, 0x43]);
    EncodeWithParity(k, message, parity, [0xdb, 0x22, 0x58, 0x5c, 0x44, 0x4f, 0x4e, 0x27, 0x54, 0x20, 0x50, 0x41, 0x4e, 0x49, 0x43]);
  }

  /** Decode of that codeword gives the message back. */
  lemma DecodeVector(k: nat, received: seq<byte>)
    requires k == 4 && received == [0xdb, 0x22, 0x58, 0x5c, 0x44, 0x4f, 0x4e, 0x27, 0x54, 0x20, 0x50, 0x41, 0x4e, 0x49, 0x43]
    ensures Decoding.Decode(k, received) == Ok([0x44, 0x4f, 0x4e, 0x27, 0x54, 0x20, 0x50, 0x41, 0x4e, 0x49, 0x43])
  {
    var message := [0x44, 0x4f, 0x4e, 0x27, 0x54, 0x20, 0x50, 0x41, 0x4e, 0x49, 0x43];
    EncodeVector(k, message);
    Decoding.DecodeEncode(k, message);
  }

  /** The codeword with its last byte 0x43 received as 0x42 also decodes to the message. */
  lemma DecodeWithErrorsLiteralVector(k: nat, received: seq<byte>)
    requires k == 4 && received == [0xdb, 0x22, 0x58, 0x5c, 0x44, 0x4f, 0x4e, 0x27, 0x54, 0x20, 0x50, 0x41, 0x4e, 0x49, 0x42]
    ensures Decoding.Decode(k, received) == Ok([0x44, 0x4f, 0x4e, 0x27, 0x54, 0x20, 0x50, 0x41, 0x4e, 0x49, 0x43])
  {
    var message, codeword := [0x44, 0x4f, 0x4e, 0x27, 0x54, 0x20, 0x50, 0x41, 0x4e, 0x49, 0x43], [0xdb, 0x22, 0x58, 0x5c, 0x44, 0x4f, 0x4e, 0x27, 0x54, 0x20, 0x50, 0x41, 0x4e, 0x49, 0x43];
    EncodeVector(k, message);
    LastByteReplaced(codeword, received);
    SingleError.DecodeWithErrorsVector(message, received);
  }

  lemma LastByteReplaced(codeword: seq<byte>, received: seq<byte>)
    requires codeword == [0xdb, 0x22, 0x58, 0x5c, 0x44, 0x4f, 0x4e, 0x27, 0x54, 0x20, 0x50, 0x41, 0x4e, 0x49, 0x43]
    requires received == [0xdb, 0x22, 0x58, 0x5c, 0x44, 0x4f, 0x4e, 0x27, 0x54, 0x20, 0x50, 0x41, 0x4e, 0x49, 0x42]
    ensures received == codeword[14 := 0x42]
  {
  }
}
