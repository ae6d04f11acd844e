/** Products and sums of the literal bytes that the vector lemmas need, one fact per lemma so
    that each is computed on its own: a product from the table of powers of alpha, a sum bit by
    bit. The arguments are parameters equal to the literals, so that a caller can hand in the
    coefficient expressions it is working with. */
module ByteFacts {
  import opened FieldArithmetic
  import opened GaloisField
  import FieldPowers

  /** An exclusive or of two literal bytes, computed bit by bit. */
  lemma AddByDigits(a: byte, b: byte, c: byte)
    requires XorDigits(a, b) == c
    ensures Add(a, b) == c
  {
    AddDigits(a, b);
  }

  lemma Product01By04(a: byte, b: byte)
    requires a == 0x01 && b == 0x04
    ensures Multiply(a, b) == 0x04
  {
    var x := 2;
    FieldPowers.Alpha0(x);
    FieldPowers.Alpha2(x);
    MultiplyPowers(x, 0, 2, 2);
  }

  lemma Product01By08(a: byte, b: byte)
    requires a == 0x01 && b == 0x08
    ensures Multiply(a, b) == 0x08
  {
    var x := 2;
    FieldPowers.Alpha0(x);
    FieldPowers.Alpha3(x);
    MultiplyPowers(x, 0, 3, 3);
  }

  lemma Product01By10(a: byte, b: byte)
    requires a == 0x01 && b == 0x10
    ensures Multiply(a, b) == 0x10
  {
    var x := 2;
    FieldPowers.Alpha0(x);
    FieldPowers.Alpha4(x);
    MultiplyPowers(x, 0, 4, 4);
  }

  lemma Product02By04(a: byte, b: byte)
    requires a == 0x02 && b == 0x04
    ensures Multiply(a, b) == 0x08
  {
    var x := 2;
    FieldPowers.Alpha1(x);
    FieldPowers.Alpha2(x);
    FieldPowers.Alpha3(x);
    MultiplyPowers(x, 1, 2, 3);
  }

  lemma Product02By06(a: byte, b: byte)
    requires a == 0x02 && b == 0x06
    ensures Multiply(a, b) == 0x0c
  {
    var x := 2;
    FieldPowers.Alpha1(x);
    FieldPowers.Alpha26(x);
    FieldPowers.Alpha27(x);
    MultiplyPowers(x, 1, 26, 27);
  }

  lemma Product02By0B(a: byte, b: byte)
    requires a == 0x02 && b == 0x0b
    ensures Multiply(a, b) == 0x16
  {
    var x := 2;
    FieldPowers.Alpha1(x);
    FieldPowers.Alpha238(x);
    FieldPowers.Alpha239(x);
    MultiplyPowers(x, 1, 238, 239);
  }

  lemma Product03By10(a: byte, b: byte)
    requires a == 0x03 && b == 0x10
    ensures Multiply(a, b) == 0x30
  {
    var x := 2;
    FieldPowers.Alpha4(x);
    FieldPowers.Alpha25(x);
    FieldPowers.Alpha29(x);
    MultiplyPowers(x, 25, 4, 29);
  }

  lemma Product04By04(a: byte, b: byte)
    requires a == 0x04 && b == 0x04
    ensures Multiply(a, b) == 0x10
  {
    var x := 2;
    FieldPowers.Alpha2(x);
    FieldPowers.Alpha4(x);
    MultiplyPowers(x, 2, 2, 4);
  }

  lemma Product06By08(a: byte, b: byte)
    requires a == 0x06 && b == 0x08
    ensures Multiply(a, b) == 0x30
  {
    var x := 2;
    FieldPowers.Alpha3(x);
    FieldPowers.Alpha26(x);
    FieldPowers.Alpha29(x);
    MultiplyPowers(x, 26, 3, 29);
  }

  lemma Product08By06(a: byte, b: byte)
    requires a == 0x08 && b == 0x06
    ensures Multiply(a, b) == 0x30
  {
    var x := 2;
    FieldPowers.Alpha3(x);
    FieldPowers.Alpha26(x);
    FieldPowers.Alpha29(x);
    MultiplyPowers(x, 3, 26, 29);
  }

  lemma Product08By08(a: byte, b: byte)
    requires a == 0x08 && b == 0x08
    ensures Multiply(a, b) == 0x40
  {
    var x := 2;
    FieldPowers.Alpha3(x);
    FieldPowers.Alpha6(x);
    MultiplyPowers(x, 3, 3, 6);
  }

  lemma Product08By0B(a: byte, b: byte)
    requires a == 0x08 && b == 0x0b
    ensures Multiply(a, b) == 0x58
  {
    var x := 2;
    FieldPowers.Alpha3(x);
    FieldPowers.Alpha238(x);
    FieldPowers.Alpha241(x);
    MultiplyPowers(x, 3, 238, 241);
  }

  lemma Product09By06(a: byte, b: byte)
    requires a == 0x09 && b == 0x06
    ensures Multiply(a, b) == 0x36
  {
    var x := 2;
    FieldPowers.Alpha26(x);
    FieldPowers.Alpha223(x);
    FieldPowers.Alpha249(x);
    MultiplyPowers(x, 223, 26, 249);
  }

  lemma Product09By0B(a: byte, b: byte)
    requires a == 0x09 && b == 0x0b
    ensures Multiply(a, b) == 0x53
  {
    var x := 2;
    FieldPowers.Alpha206(x);
    FieldPowers.Alpha223(x);
    FieldPowers.Alpha238(x);
    MultiplyPowers(x, 223, 238, 206);
  }

  lemma Product0CBy04(a: byte, b: byte)
    requires a == 0x0c && b == 0x04
    ensures Multiply(a, b) == 0x30
  {
    var x := 2;
    FieldPowers.Alpha2(x);
    FieldPowers.Alpha27(x);
    FieldPowers.Alpha29(x);
    MultiplyPowers(x, 27, 2, 29);
  }

  lemma Product0EBy10(a: byte, b: byte)
    requires a == 0x0e && b == 0x10
    ensures Multiply(a, b) == 0xe0
  {
    var x := 2;
    FieldPowers.Alpha4(x);
    FieldPowers.Alpha199(x);
    FieldPowers.Alpha203(x);
    MultiplyPowers(x, 199, 4, 203);
  }

  lemma Product0FBy01(a: byte, b: byte)
    requires a == 0x0f && b == 0x01
    ensures Multiply(a, b) == 0x0f
  {
    var x := 2;
    FieldPowers.Alpha0(x);
    FieldPowers.Alpha75(x);
    MultiplyPowers(x, 75, 0, 75);
  }

  lemma Product0FBy1E(a: byte, b: byte)
    requires a == 0x0f && b == 0x1e
    ensures Multiply(a, b) == 0xaa
  {
    var x := 2;
    FieldPowers.Alpha75(x);
    FieldPowers.Alpha76(x);
    FieldPowers.Alpha151(x);
    MultiplyPowers(x, 75, 76, 151);
  }

  lemma Product0FBy74(a: byte, b: byte)
    requires a == 0x0f && b == 0x74
    ensures Multiply(a, b) == 0xd6
  {
    var x := 2;
    FieldPowers.Alpha10(x);
    FieldPowers.Alpha75(x);
    FieldPowers.Alpha85(x);
    MultiplyPowers(x, 75, 10, 85);
  }

  lemma Product0FByD8(a: byte, b: byte)
    requires a == 0x0f && b == 0xd8
    ensures Multiply(a, b) == 0xbc
  {
    var x := 2;
    FieldPowers.Alpha71(x);
    FieldPowers.Alpha75(x);
    FieldPowers.Alpha251(x);
    MultiplyPowers(x, 75, 251, 71);
  }

  lemma Product0FByE7(a: byte, b: byte)
    requires a == 0x0f && b == 0xe7
    ensures Multiply(a, b) == 0xe4
  {
    var x := 2;
    FieldPowers.Alpha75(x);
    FieldPowers.Alpha81(x);
    FieldPowers.Alpha156(x);
    MultiplyPowers(x, 75, 81, 156);
  }

  lemma Product16By01(a: byte, b: byte)
    requires a == 0x16 && b == 0x01
    ensures Multiply(a, b) == 0x16
  {
    var x := 2;
    FieldPowers.Alpha0(x);
    FieldPowers.Alpha239(x);
    MultiplyPowers(x, 239, 0, 239);
  }

  lemma Product16By1E(a: byte, b: byte)
    requires a == 0x16 && b == 0x1e
    ensures Multiply(a, b) == 0xb9
  {
    var x := 2;
    FieldPowers.Alpha60(x);
    FieldPowers.Alpha76(x);
    FieldPowers.Alpha239(x);
    MultiplyPowers(x, 239, 76, 60);
  }

  lemma Product16By74(a: byte, b: byte)
    requires a == 0x16 && b == 0x74
    ensures Multiply(a, b) == 0x36
  {
    var x := 2;
    FieldPowers.Alpha10(x);
    FieldPowers.Alpha239(x);
    FieldPowers.Alpha249(x);
    MultiplyPowers(x, 239, 10, 249);
  }

  lemma Product16ByD8(a: byte, b: byte)
    requires a == 0x16 && b == 0xd8
    ensures Multiply(a, b) == 0xeb
  {
    var x := 2;
    FieldPowers.Alpha235(x);
    FieldPowers.Alpha239(x);
    FieldPowers.Alpha251(x);
    MultiplyPowers(x, 239, 251, 235);
  }

  lemma Product16ByE7(a: byte, b: byte)
    requires a == 0x16 && b == 0xe7
    ensures Multiply(a, b) == 0xbe
  {
    var x := 2;
    FieldPowers.Alpha65(x);
    FieldPowers.Alpha81(x);
    FieldPowers.Alpha239(x);
    MultiplyPowers(x, 239, 81, 65);
  }

  lemma Product38By10(a: byte, b: byte)
    requires a == 0x38 && b == 0x10
    ensures Multiply(a, b) == 0xa7
  {
    var x := 2;
    FieldPowers.Alpha4(x);
    FieldPowers.Alpha201(x);
    FieldPowers.Alpha205(x);
    MultiplyPowers(x, 201, 4, 205);
  }

  lemma Product40By10(a: byte, b: byte)
    requires a == 0x40 && b == 0x10
    ensures Multiply(a, b) == 0x74
  {
    var x := 2;
    FieldPowers.Alpha4(x);
    FieldPowers.Alpha6(x);
    FieldPowers.Alpha10(x);
    MultiplyPowers(x, 6, 4, 10);
  }

  lemma Product43By01(a: byte, b: byte)
    requires a == 0x43 && b == 0x01
    ensures Multiply(a, b) == 0x43
  {
    var x := 2;
    FieldPowers.Alpha0(x);
    FieldPowers.Alpha98(x);
    MultiplyPowers(x, 98, 0, 98);
  }

  lemma Product43By1E(a: byte, b: byte)
    requires a == 0x43 && b == 0x1e
    ensures Multiply(a, b) == 0xf1
  {
    var x := 2;
    FieldPowers.Alpha76(x);
    FieldPowers.Alpha98(x);
    FieldPowers.Alpha174(x);
    MultiplyPowers(x, 98, 76, 174);
  }

  lemma Product43By74(a: byte, b: byte)
    requires a == 0x43 && b == 0x74
    ensures Multiply(a, b) == 0xd0
  {
    var x := 2;
    FieldPowers.Alpha10(x);
    FieldPowers.Alpha98(x);
    FieldPowers.Alpha108(x);
    MultiplyPowers(x, 98, 10, 108);
  }

  lemma Product43ByD8(a: byte, b: byte)
    requires a == 0x43 && b == 0xd8
    ensures Multiply(a, b) == 0x71
  {
    var x := 2;
    FieldPowers.Alpha94(x);
    FieldPowers.Alpha98(x);
    FieldPowers.Alpha251(x);
    MultiplyPowers(x, 98, 251, 94);
  }

  lemma Product43ByE7(a: byte, b: byte)
    requires a == 0x43 && b == 0xe7
    ensures Multiply(a, b) == 0x4b
  {
    var x := 2;
    FieldPowers.Alpha81(x);
    FieldPowers.Alpha98(x);
    FieldPowers.Alpha179(x);
    MultiplyPowers(x, 98, 81, 179);
  }

  lemma Product57By02(a: byte, b: byte)
    requires a == 0x57 && b == 0x02
    ensures Multiply(a, b) == 0xae
  {
    var x := 2;
    FieldPowers.Alpha1(x);
    FieldPowers.Alpha189(x);
    FieldPowers.Alpha190(x);
    MultiplyPowers(x, 189, 1, 190);
  }

  lemma Product5ABy01(a: byte, b: byte)
    requires a == 0x5a && b == 0x01
    ensures Multiply(a, b) == 0x5a
  {
    var x := 2;
    FieldPowers.Alpha0(x);
    FieldPowers.Alpha19(x);
    MultiplyPowers(x, 19, 0, 19);
  }

  lemma Product5ABy1E(a: byte, b: byte)
    requires a == 0x5a && b == 0x1e
    ensures Multiply(a, b) == 0xe2
  {
    var x := 2;
    FieldPowers.Alpha19(x);
    FieldPowers.Alpha76(x);
    FieldPowers.Alpha95(x);
    MultiplyPowers(x, 19, 76, 95);
  }

  lemma Product5ABy74(a: byte, b: byte)
    requires a == 0x5a && b == 0x74
    ensures Multiply(a, b) == 0x30
  {
    var x := 2;
    FieldPowers.Alpha10(x);
    FieldPowers.Alpha19(x);
    FieldPowers.Alpha29(x);
    MultiplyPowers(x, 19, 10, 29);
  }

  lemma Product5AByD8(a: byte, b: byte)
    requires a == 0x5a && b == 0xd8
    ensures Multiply(a, b) == 0x26
  {
    var x := 2;
    FieldPowers.Alpha15(x);
    FieldPowers.Alpha19(x);
    FieldPowers.Alpha251(x);
    MultiplyPowers(x, 19, 251, 15);
  }

  lemma Product5AByE7(a: byte, b: byte)
    requires a == 0x5a && b == 0xe7
    ensures Multiply(a, b) == 0x11
  {
    var x := 2;
    FieldPowers.Alpha19(x);
    FieldPowers.Alpha81(x);
    FieldPowers.Alpha100(x);
    MultiplyPowers(x, 19, 81, 100);
  }

  lemma Product6EBy01(a: byte, b: byte)
    requires a == 0x6e && b == 0x01
    ensures Multiply(a, b) == 0x6e
  {
    var x := 2;
    FieldPowers.Alpha0(x);
    FieldPowers.Alpha186(x);
    MultiplyPowers(x, 186, 0, 186);
  }

  lemma Product6EBy1E(a: byte, b: byte)
    requires a == 0x6e && b == 0x1e
    ensures Multiply(a, b) == 0x80
  {
    var x := 2;
    FieldPowers.Alpha7(x);
    FieldPowers.Alpha76(x);
    FieldPowers.Alpha186(x);
    MultiplyPowers(x, 186, 76, 7);
  }

  lemma Product6EBy74(a: byte, b: byte)
    requires a == 0x6e && b == 0x74
    ensures Multiply(a, b) == 0xc8
  {
    var x := 2;
    FieldPowers.Alpha10(x);
    FieldPowers.Alpha186(x);
    FieldPowers.Alpha196(x);
    MultiplyPowers(x, 186, 10, 196);
  }

  lemma Product6EByD8(a: byte, b: byte)
    requires a == 0x6e && b == 0xd8
    ensures Multiply(a, b) == 0x62
  {
    var x := 2;
    FieldPowers.Alpha182(x);
    FieldPowers.Alpha186(x);
    FieldPowers.Alpha251(x);
    MultiplyPowers(x, 186, 251, 182);
  }

  lemma Product6EByE7(a: byte, b: byte)
    requires a == 0x6e && b == 0xe7
    ensures Multiply(a, b) == 0xcd
  {
    var x := 2;
    FieldPowers.Alpha12(x);
    FieldPowers.Alpha81(x);
    FieldPowers.Alpha186(x);
    MultiplyPowers(x, 186, 81, 12);
  }

  lemma Product73By06(a: byte, b: byte)
    requires a == 0x73 && b == 0x06
    ensures Multiply(a, b) == 0x37
  {
    var x := 2;
    FieldPowers.Alpha26(x);
    FieldPowers.Alpha159(x);
    FieldPowers.Alpha185(x);
    MultiplyPowers(x, 159, 26, 185);
  }

  lemma Product73By07(a: byte, b: byte)
    requires a == 0x73 && b == 0x07
    ensures Multiply(a, b) == 0x44
  {
    var x := 2;
    FieldPowers.Alpha102(x);
    FieldPowers.Alpha159(x);
    FieldPowers.Alpha198(x);
    MultiplyPowers(x, 159, 198, 102);
  }

  lemma Product73By0B(a: byte, b: byte)
    requires a == 0x73 && b == 0x0b
    ensures Multiply(a, b) == 0x2a
  {
    var x := 2;
    FieldPowers.Alpha142(x);
    FieldPowers.Alpha159(x);
    FieldPowers.Alpha238(x);
    MultiplyPowers(x, 159, 238, 142);
  }

  lemma Product7EBy01(a: byte, b: byte)
    requires a == 0x7e && b == 0x01
    ensures Multiply(a, b) == 0x7e
  {
    var x := 2;
    FieldPowers.Alpha0(x);
    FieldPowers.Alpha167(x);
    MultiplyPowers(x, 167, 0, 167);
  }

  lemma Product7EBy1E(a: byte, b: byte)
    requires a == 0x7e && b == 0x1e
    ensures Multiply(a, b) == 0x7d
  {
    var x := 2;
    FieldPowers.Alpha76(x);
    FieldPowers.Alpha167(x);
    FieldPowers.Alpha243(x);
    MultiplyPowers(x, 167, 76, 243);
  }

  lemma Product7EBy74(a: byte, b: byte)
    requires a == 0x7e && b == 0x74
    ensures Multiply(a, b) == 0xdb
  {
    var x := 2;
    FieldPowers.Alpha10(x);
    FieldPowers.Alpha167(x);
    FieldPowers.Alpha177(x);
    MultiplyPowers(x, 167, 10, 177);
  }

  lemma Product7EByD8(a: byte, b: byte)
    requires a == 0x7e && b == 0xd8
    ensures Multiply(a, b) == 0x63
  {
    var x := 2;
    FieldPowers.Alpha163(x);
    FieldPowers.Alpha167(x);
    FieldPowers.Alpha251(x);
    MultiplyPowers(x, 167, 251, 163);
  }

  lemma Product7EByE7(a: byte, b: byte)
    requires a == 0x7e && b == 0xe7
    ensures Multiply(a, b) == 0x1b
  {
    var x := 2;
    FieldPowers.Alpha81(x);
    FieldPowers.Alpha167(x);
    FieldPowers.Alpha248(x);
    MultiplyPowers(x, 167, 81, 248);
  }

  lemma Product88By01(a: byte, b: byte)
    requires a == 0x88 && b == 0x01
    ensures Multiply(a, b) == 0x88
  {
    var x := 2;
    FieldPowers.Alpha0(x);
    FieldPowers.Alpha103(x);
    MultiplyPowers(x, 103, 0, 103);
  }

  lemma Product88By1E(a: byte, b: byte)
    requires a == 0x88 && b == 0x1e
    ensures Multiply(a, b) == 0x4b
  {
    var x := 2;
    FieldPowers.Alpha76(x);
    FieldPowers.Alpha103(x);
    FieldPowers.Alpha179(x);
    MultiplyPowers(x, 103, 76, 179);
  }

  lemma Product88By74(a: byte, b: byte)
    requires a == 0x88 && b == 0x74
    ensures Multiply(a, b) == 0x1f
  {
    var x := 2;
    FieldPowers.Alpha10(x);
    FieldPowers.Alpha103(x);
    FieldPowers.Alpha113(x);
    MultiplyPowers(x, 103, 10, 113);
  }

  lemma Product88ByD8(a: byte, b: byte)
    requires a == 0x88 && b == 0xd8
    ensures Multiply(a, b) == 0x86
  {
    var x := 2;
    FieldPowers.Alpha99(x);
    FieldPowers.Alpha103(x);
    FieldPowers.Alpha251(x);
    MultiplyPowers(x, 103, 251, 99);
  }

  lemma Product88ByE7(a: byte, b: byte)
    requires a == 0x88 && b == 0xe7
    ensures Multiply(a, b) == 0x95
  {
    var x := 2;
    FieldPowers.Alpha81(x);
    FieldPowers.Alpha103(x);
    FieldPowers.Alpha184(x);
    MultiplyPowers(x, 103, 81, 184);
  }

  lemma ProductA8By01(a: byte, b: byte)
    requires a == 0xa8 && b == 0x01
    ensures Multiply(a, b) == 0xa8
  {
    var x := 2;
    FieldPowers.Alpha0(x);
    FieldPowers.Alpha144(x);
    MultiplyPowers(x, 144, 0, 144);
  }

  lemma ProductA8By1E(a: byte, b: byte)
    requires a == 0xa8 && b == 0x1e
    ensures Multiply(a, b) == 0xac
  {
    var x := 2;
    FieldPowers.Alpha76(x);
    FieldPowers.Alpha144(x);
    FieldPowers.Alpha220(x);
    MultiplyPowers(x, 144, 76, 220);
  }

  lemma ProductA8By74(a: byte, b: byte)
    requires a == 0xa8 && b == 0x74
    ensures Multiply(a, b) == 0x39
  {
    var x := 2;
    FieldPowers.Alpha10(x);
    FieldPowers.Alpha144(x);
    FieldPowers.Alpha154(x);
    MultiplyPowers(x, 144, 10, 154);
  }

  lemma ProductA8ByD8(a: byte, b: byte)
    requires a == 0xa8 && b == 0xd8
    ensures Multiply(a, b) == 0x84
  {
    var x := 2;
    FieldPowers.Alpha140(x);
    FieldPowers.Alpha144(x);
    FieldPowers.Alpha251(x);
    MultiplyPowers(x, 144, 251, 140);
  }

  lemma ProductA8ByE7(a: byte, b: byte)
    requires a == 0xa8 && b == 0xe7
    ensures Multiply(a, b) == 0x24
  {
    var x := 2;
    FieldPowers.Alpha81(x);
    FieldPowers.Alpha144(x);
    FieldPowers.Alpha225(x);
    MultiplyPowers(x, 144, 81, 225);
  }

  lemma ProductB8By01(a: byte, b: byte)
    requires a == 0xb8 && b == 0x01
    ensures Multiply(a, b) == 0xb8
  {
    var x := 2;
    FieldPowers.Alpha0(x);
    FieldPowers.Alpha132(x);
    MultiplyPowers(x, 132, 0, 132);
  }

  lemma ProductB8By1E(a: byte, b: byte)
    requires a == 0xb8 && b == 0x1e
    ensures Multiply(a, b) == 0x51
  {
    var x := 2;
    FieldPowers.Alpha76(x);
    FieldPowers.Alpha132(x);
    FieldPowers.Alpha208(x);
    MultiplyPowers(x, 132, 76, 208);
  }

  lemma ProductB8By74(a: byte, b: byte)
    requires a == 0xb8 && b == 0x74
    ensures Multiply(a, b) == 0x2a
  {
    var x := 2;
    FieldPowers.Alpha10(x);
    FieldPowers.Alpha132(x);
    FieldPowers.Alpha142(x);
    MultiplyPowers(x, 132, 10, 142);
  }

  lemma ProductB8ByD8(a: byte, b: byte)
    requires a == 0xb8 && b == 0xd8
    ensures Multiply(a, b) == 0x85
  {
    var x := 2;
    FieldPowers.Alpha128(x);
    FieldPowers.Alpha132(x);
    FieldPowers.Alpha251(x);
    MultiplyPowers(x, 132, 251, 128);
  }

  lemma ProductB8ByE7(a: byte, b: byte)
    requires a == 0xb8 && b == 0xe7
    ensures Multiply(a, b) == 0xf2
  {
    var x := 2;
    FieldPowers.Alpha81(x);
    FieldPowers.Alpha132(x);
    FieldPowers.Alpha213(x);
    MultiplyPowers(x, 132, 81, 213);
  }

  lemma ProductBABy01(a: byte, b: byte)
    requires a == 0xba && b == 0x01
    ensures Multiply(a, b) == 0xba
  {
    var x := 2;
    FieldPowers.Alpha0(x);
    FieldPowers.Alpha57(x);
    MultiplyPowers(x, 57, 0, 57);
  }

  lemma ProductBABy1E(a: byte, b: byte)
    requires a == 0xba && b == 0x1e
    ensures Multiply(a, b) == 0x6d
  {
    var x := 2;
    FieldPowers.Alpha57(x);
    FieldPowers.Alpha76(x);
    FieldPowers.Alpha133(x);
    MultiplyPowers(x, 57, 76, 133);
  }

  lemma ProductBABy74(a: byte, b: byte)
    requires a == 0xba && b == 0x74
    ensures Multiply(a, b) == 0xc2
  {
    var x := 2;
    FieldPowers.Alpha10(x);
    FieldPowers.Alpha57(x);
    FieldPowers.Alpha67(x);
    MultiplyPowers(x, 57, 10, 67);
  }

  lemma ProductBAByD8(a: byte, b: byte)
    requires a == 0xba && b == 0xd8
    ensures Multiply(a, b) == 0x28
  {
    var x := 2;
    FieldPowers.Alpha53(x);
    FieldPowers.Alpha57(x);
    FieldPowers.Alpha251(x);
    MultiplyPowers(x, 57, 251, 53);
  }

  lemma ProductBAByE7(a: byte, b: byte)
    requires a == 0xba && b == 0xe7
    ensures Multiply(a, b) == 0x21
  {
    var x := 2;
    FieldPowers.Alpha57(x);
    FieldPowers.Alpha81(x);
    FieldPowers.Alpha138(x);
    MultiplyPowers(x, 57, 81, 138);
  }

  lemma ProductE8By06(a: byte, b: byte)
    requires a == 0xe8 && b == 0x06
    ensures Multiply(a, b) == 0x4a
  {
    var x := 2;
    FieldPowers.Alpha11(x);
    FieldPowers.Alpha26(x);
    FieldPowers.Alpha37(x);
    MultiplyPowers(x, 11, 26, 37);
  }

  lemma ProductE8By07(a: byte, b: byte)
    requires a == 0xe8 && b == 0x07
    ensures Multiply(a, b) == 0xa2
  {
    var x := 2;
    FieldPowers.Alpha11(x);
    FieldPowers.Alpha198(x);
    FieldPowers.Alpha209(x);
    MultiplyPowers(x, 11, 198, 209);
  }

  lemma ProductE8By0B(a: byte, b: byte)
    requires a == 0xe8 && b == 0x0b
    ensures Multiply(a, b) == 0x36
  {
    var x := 2;
    FieldPowers.Alpha11(x);
    FieldPowers.Alpha238(x);
    FieldPowers.Alpha249(x);
    MultiplyPowers(x, 11, 238, 249);
  }

  lemma ProductE9By01(a: byte, b: byte)
    requires a == 0xe9 && b == 0x01
    ensures Multiply(a, b) == 0xe9
  {
    var x := 2;
    FieldPowers.Alpha0(x);
    FieldPowers.Alpha245(x);
    MultiplyPowers(x, 245, 0, 245);
  }

  lemma ProductE9By1E(a: byte, b: byte)
    requires a == 0xe9 && b == 0x1e
    ensures Multiply(a, b) == 0x61
  {
    var x := 2;
    FieldPowers.Alpha66(x);
    FieldPowers.Alpha76(x);
    FieldPowers.Alpha245(x);
    MultiplyPowers(x, 245, 76, 66);
  }

  lemma ProductE9By74(a: byte, b: byte)
    requires a == 0xe9 && b == 0x74
    ensures Multiply(a, b) == 0x01
  {
    var x := 2;
    FieldPowers.Alpha0(x);
    FieldPowers.Alpha10(x);
    FieldPowers.Alpha245(x);
    MultiplyPowers(x, 245, 10, 0);
  }

  lemma ProductE9ByD8(a: byte, b: byte)
    requires a == 0xe9 && b == 0xd8
    ensures Multiply(a, b) == 0x58
  {
    var x := 2;
    FieldPowers.Alpha241(x);
    FieldPowers.Alpha245(x);
    FieldPowers.Alpha251(x);
    MultiplyPowers(x, 245, 251, 241);
  }

  lemma ProductE9ByE7(a: byte, b: byte)
    requires a == 0xe9 && b == 0xe7
    ensures Multiply(a, b) == 0xbc
  {
    var x := 2;
    FieldPowers.Alpha71(x);
    FieldPowers.Alpha81(x);
    FieldPowers.Alpha245(x);
    MultiplyPowers(x, 245, 81, 71);
  }

  lemma Sum01And57(a: byte, b: byte)
    requires a == 0x01 && b == 0x57
    ensures Add(a, b) == 0x56
  {
    AddByDigits(0x01, 0x57, 0x56);
  }

  lemma Sum01AndAE(a: byte, b: byte)
    requires a == 0x01 && b == 0xae
    ensures Add(a, b) == 0xaf
  {
    AddByDigits(0x01, 0xae, 0xaf);
  }

  lemma Sum03And13(a: byte, b: byte)
    requires a == 0x03 && b == 0x13
    ensures Add(a, b) == 0x10
  {
    AddByDigits(0x03, 0x13, 0x10);
  }

  lemma Sum04And02(a: byte, b: byte)
    requires a == 0x04 && b == 0x02
    ensures Add(a, b) == 0x06
  {
    AddByDigits(0x04, 0x02, 0x06);
  }

  lemma Sum07And30(a: byte, b: byte)
    requires a == 0x07 && b == 0x30
    ensures Add(a, b) == 0x37
  {
    AddByDigits(0x07, 0x30, 0x37);
  }

  lemma Sum08And06(a: byte, b: byte)
    requires a == 0x08 && b == 0x06
    ensures Add(a, b) == 0x0e
  {
    AddByDigits(0x08, 0x06, 0x0e);
  }

  lemma Sum0AAnd2A(a: byte, b: byte)
    requires a == 0x0a && b == 0x2a
    ensures Add(a, b) == 0x20
  {
    AddByDigits(0x0a, 0x2a, 0x20);
  }

  lemma Sum0AAnd4B(a: byte, b: byte)
    requires a == 0x0a && b == 0x4b
    ensures Add(a, b) == 0x41
  {
    AddByDigits(0x0a, 0x4b, 0x41);
  }

  lemma Sum0BAnd06(a: byte, b: byte)
    requires a == 0x0b && b == 0x06
    ensures Add(a, b) == 0x0d
  {
    AddByDigits(0x0b, 0x06, 0x0d);
  }

  lemma Sum0FAnd80(a: byte, b: byte)
    requires a == 0x0f && b == 0x80
    ensures Add(a, b) == 0x8f
  {
    AddByDigits(0x0f, 0x80, 0x8f);
  }

  lemma Sum10And0E(a: byte, b: byte)
    requires a == 0x10 && b == 0x0e
    ensures Add(a, b) == 0x1e
  {
    AddByDigits(0x10, 0x0e, 0x1e);
  }

  lemma Sum10And62(a: byte, b: byte)
    requires a == 0x10 && b == 0x62
    ensures Add(a, b) == 0x72
  {
    AddByDigits(0x10, 0x62, 0x72);
  }

  lemma Sum16And6D(a: byte, b: byte)
    requires a == 0x16 && b == 0x6d
    ensures Add(a, b) == 0x7b
  {
    AddByDigits(0x16, 0x6d, 0x7b);
  }

  lemma Sum1BAnd39(a: byte, b: byte)
    requires a == 0x1b && b == 0x39
    ensures Add(a, b) == 0x22
  {
    AddByDigits(0x1b, 0x39, 0x22);
  }

  lemma Sum30And08(a: byte, b: byte)
    requires a == 0x30 && b == 0x08
    ensures Add(a, b) == 0x38
  {
    AddByDigits(0x30, 0x08, 0x38);
  }

  lemma Sum32AndBE(a: byte, b: byte)
    requires a == 0x32 && b == 0xbe
    ensures Add(a, b) == 0x8c
  {
    AddByDigits(0x32, 0xbe, 0x8c);
  }

  lemma Sum36And37(a: byte, b: byte)
    requires a == 0x36 && b == 0x37
    ensures Add(a, b) == 0x01
  {
    AddByDigits(0x36, 0x37, 0x01);
  }

  lemma Sum37And30(a: byte, b: byte)
    requires a == 0x37 && b == 0x30
    ensures Add(a, b) == 0x07
  {
    AddByDigits(0x37, 0x30, 0x07);
  }

  lemma Sum3BAndEB(a: byte, b: byte)
    requires a == 0x3b && b == 0xeb
    ensures Add(a, b) == 0xd0
  {
    AddByDigits(0x3b, 0xeb, 0xd0);
  }

  lemma Sum3FAnd71(a: byte, b: byte)
    requires a == 0x3f && b == 0x71
    ensures Add(a, b) == 0x4e
  {
    AddByDigits(0x3f, 0x71, 0x4e);
  }

  lemma Sum45And01(a: byte, b: byte)
    requires a == 0x45 && b == 0x01
    ensures Add(a, b) == 0x44
  {
    AddByDigits(0x45, 0x01, 0x44);
  }

  lemma Sum47And1F(a: byte, b: byte)
    requires a == 0x47 && b == 0x1f
    ensures Add(a, b) == 0x58
  {
    AddByDigits(0x47, 0x1f, 0x58);
  }

  lemma Sum4AAnd09(a: byte, b: byte)
    requires a == 0x4a && b == 0x09
    ensures Add(a, b) == 0x43
  {
    AddByDigits(0x4a, 0x09, 0x43);
  }

  lemma Sum50And28(a: byte, b: byte)
    requires a == 0x50 && b == 0x28
    ensures Add(a, b) == 0x78
  {
    AddByDigits(0x50, 0x28, 0x78);
  }

  lemma Sum53And0C(a: byte, b: byte)
    requires a == 0x53 && b == 0x0c
    ensures Add(a, b) == 0x5f
  {
    AddByDigits(0x53, 0x0c, 0x5f);
  }

  lemma Sum54And11(a: byte, b: byte)
    requires a == 0x54 && b == 0x11
    ensures Add(a, b) == 0x45
  {
    AddByDigits(0x54, 0x11, 0x45);
  }

  lemma Sum58And36(a: byte, b: byte)
    requires a == 0x58 && b == 0x36
    ensures Add(a, b) == 0x6e
  {
    AddByDigits(0x58, 0x36, 0x6e);
  }

  lemma Sum5AAnd61(a: byte, b: byte)
    requires a == 0x5a && b == 0x61
    ensures Add(a, b) == 0x3b
  {
    AddByDigits(0x5a, 0x61, 0x3b);
  }

  lemma Sum63And24(a: byte, b: byte)
    requires a == 0x63 && b == 0x24
    ensures Add(a, b) == 0x47
  {
    AddByDigits(0x63, 0x24, 0x47);
  }

  lemma Sum6AAnd58(a: byte, b: byte)
    requires a == 0x6a && b == 0x58
    ensures Add(a, b) == 0x32
  {
    AddByDigits(0x6a, 0x58, 0x32);
  }

  lemma Sum6CAnd30(a: byte, b: byte)
    requires a == 0x6c && b == 0x30
    ensures Add(a, b) == 0x5c
  {
    AddByDigits(0x6c, 0x30, 0x5c);
  }

  lemma Sum6EAnd51(a: byte, b: byte)
    requires a == 0x6e && b == 0x51
    ensures Add(a, b) == 0x3f
  {
    AddByDigits(0x6e, 0x51, 0x3f);
  }

  lemma Sum72AndF2(a: byte, b: byte)
    requires a == 0x72 && b == 0xf2
    ensures Add(a, b) == 0x80
  {
    AddByDigits(0x72, 0xf2, 0x80);
  }

  lemma Sum78AndE4(a: byte, b: byte)
    requires a == 0x78 && b == 0xe4
    ensures Add(a, b) == 0x9c
  {
    AddByDigits(0x78, 0xe4, 0x9c);
  }

  lemma Sum79And36(a: byte, b: byte)
    requires a == 0x79 && b == 0x36
    ensures Add(a, b) == 0x4f
  {
    AddByDigits(0x79, 0x36, 0x4f);
  }

  lemma Sum7BAndBC(a: byte, b: byte)
    requires a == 0x7b && b == 0xbc
    ensures Add(a, b) == 0xc7
  {
    AddByDigits(0x7b, 0xbc, 0xc7);
  }

  lemma Sum7DAnd84(a: byte, b: byte)
    requires a == 0x7d && b == 0x84
    ensures Add(a, b) == 0xf9
  {
    AddByDigits(0x7d, 0x84, 0xf9);
  }

  lemma Sum7EAndAC(a: byte, b: byte)
    requires a == 0x7e && b == 0xac
    ensures Add(a, b) == 0xd2
  {
    AddByDigits(0x7e, 0xac, 0xd2);
  }

  lemma Sum80AndD0(a: byte, b: byte)
    requires a == 0x80 && b == 0xd0
    ensures Add(a, b) == 0x50
  {
    AddByDigits(0x80, 0xd0, 0x50);
  }

  lemma Sum88AndE2(a: byte, b: byte)
    requires a == 0x88 && b == 0xe2
    ensures Add(a, b) == 0x6a
  {
    AddByDigits(0x88, 0xe2, 0x6a);
  }

  lemma Sum8CAndC2(a: byte, b: byte)
    requires a == 0x8c && b == 0xc2
    ensures Add(a, b) == 0x4e
  {
    AddByDigits(0x8c, 0xc2, 0x4e);
  }

  lemma Sum8FAnd85(a: byte, b: byte)
    requires a == 0x8f && b == 0x85
    ensures Add(a, b) == 0x0a
  {
    AddByDigits(0x8f, 0x85, 0x0a);
  }

  lemma Sum9CAndC8(a: byte, b: byte)
    requires a == 0x9c && b == 0xc8
    ensures Add(a, b) == 0x54
  {
    AddByDigits(0x9c, 0xc8, 0x54);
  }

  lemma SumA2And2A(a: byte, b: byte)
    requires a == 0xa2 && b == 0x2a
    ensures Add(a, b) == 0x88
  {
    AddByDigits(0xa2, 0x2a, 0x88);
  }

  lemma SumA7And40(a: byte, b: byte)
    requires a == 0xa7 && b == 0x40
    ensures Add(a, b) == 0xe7
  {
    AddByDigits(0xa7, 0x40, 0xe7);
  }

  lemma SumA8And4B(a: byte, b: byte)
    requires a == 0xa8 && b == 0x4b
    ensures Add(a, b) == 0xe3
  {
    AddByDigits(0xa8, 0x4b, 0xe3);
  }

  lemma SumB8AndF1(a: byte, b: byte)
    requires a == 0xb8 && b == 0xf1
    ensures Add(a, b) == 0x49
  {
    AddByDigits(0xb8, 0xf1, 0x49);
  }

  lemma SumBAAndAA(a: byte, b: byte)
    requires a == 0xba && b == 0xaa
    ensures Add(a, b) == 0x10
  {
    AddByDigits(0xba, 0xaa, 0x10);
  }

  lemma SumC5AndBC(a: byte, b: byte)
    requires a == 0xc5 && b == 0xbc
    ensures Add(a, b) == 0x79
  {
    AddByDigits(0xc5, 0xbc, 0x79);
  }

  lemma SumC7AndCD(a: byte, b: byte)
    requires a == 0xc7 && b == 0xcd
    ensures Add(a, b) == 0x0a
  {
    AddByDigits(0xc7, 0xcd, 0x0a);
  }

  lemma SumD0And21(a: byte, b: byte)
    requires a == 0xd0 && b == 0x21
    ensures Add(a, b) == 0xf1
  {
    AddByDigits(0xd0, 0x21, 0xf1);
  }

  lemma SumD2And86(a: byte, b: byte)
    requires a == 0xd2 && b == 0x86
    ensures Add(a, b) == 0x54
  {
    AddByDigits(0xd2, 0x86, 0x54);
  }

  lemma SumE0And38(a: byte, b: byte)
    requires a == 0xe0 && b == 0x38
    ensures Add(a, b) == 0xd8
  {
    AddByDigits(0xe0, 0x38, 0xd8);
  }

  lemma SumE3And26(a: byte, b: byte)
    requires a == 0xe3 && b == 0x26
    ensures Add(a, b) == 0xc5
  {
    AddByDigits(0xe3, 0x26, 0xc5);
  }

  lemma SumE9AndB9(a: byte, b: byte)
    requires a == 0xe9 && b == 0xb9
    ensures Add(a, b) == 0x50
  {
    AddByDigits(0xe9, 0xb9, 0x50);
  }

  lemma SumF1AndD6(a: byte, b: byte)
    requires a == 0xf1 && b == 0xd6
    ensures Add(a, b) == 0x27
  {
    AddByDigits(0xf1, 0xd6, 0x27);
  }

  lemma SumF9And95(a: byte, b: byte)
    requires a == 0xf9 && b == 0x95
    ensures Add(a, b) == 0x6c
  {
    AddByDigits(0xf9, 0x95, 0x6c);
  }
}
