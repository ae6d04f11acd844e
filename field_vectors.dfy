/** The field values the project's own tests expect (ReedSolomonCode.Tests/GaloisFieldTests.cs),
    proved from the definitions: sums bit by bit, products and quotients from the table of
    powers of alpha. */
module FieldVectors {
  import opened Results
  import opened FieldArithmetic
  import opened GaloisField
  import FieldPowers

  lemma AddVectors()
    ensures Add(0x57, 0x83) == 0xD4
    ensures Add(0xAA, 0xAA) == 0x00
    ensures Add(0x00, 0xFF) == 0xFF
  {
    AddDigits(0x57, 0x83);
    AddSelf(0xAA);
    AddZero(0xFF);
  }

  lemma MultiplyVectorA()
    ensures Multiply(0x50, 0x04) == 0x5D
  {
    var x := 2;
    FieldPowers.Alpha54(x);
    FieldPowers.Alpha2(x);
    FieldPowers.Alpha56(x);
    MultiplyPowers(x, 54, 2, 56);
  }

  lemma MultiplyVectorB()
    ensures Multiply(0x74, 0x47) == 0x1D
  {
    var x := 2;
    FieldPowers.Alpha10(x);
    FieldPowers.Alpha253(x);
    FieldPowers.Alpha8(x);
    MultiplyPowers(x, 10, 253, 8);
  }

  lemma MultiplyVectorC()
    ensures Multiply(0x8E, 0x8E) == 0x47
  {
    var x := 2;
    FieldPowers.Alpha254(x);
    FieldPowers.Alpha253(x);
    MultiplyPowers(x, 254, 254, 253);
  }

  lemma DivideVectorA()
    ensures Divide(0xAD, 0x8E) == Ok(0x47)
  {
    var x := 2;
    FieldPowers.Alpha253(x);
    FieldPowers.Alpha254(x);
    FieldPowers.Alpha252(x);
    MultiplyPowers(x, 253, 254, 252);
    DivideUnique(0xAD, 0x8E, 0x47);
  }

  lemma DivideVectorB()
    ensures Divide(0x83, 0xE9) == Ok(0x04)
  {
    var x := 2;
    FieldPowers.Alpha2(x);
    FieldPowers.Alpha245(x);
    FieldPowers.Alpha247(x);
    MultiplyPowers(x, 2, 245, 247);
    DivideUnique(0x83, 0xE9, 0x04);
  }

  lemma InverseVector()
    ensures Inverse(0x08) == Ok(0xAD)
  {
    var x := 2;
    FieldPowers.Alpha0(x);
    FieldPowers.Alpha3(x);
    FieldPowers.Alpha252(x);
    MultiplyPowers(x, 3, 252, 0);
    InverseUnique(0x08, 0xAD);
  }

  /** Division undoes multiplication on the pair of the tests, 0x57 and 0x83. */
  lemma MultiplyThenDivide(a: byte, b: byte)
    requires a == 0x57 && b == 0x83
    ensures Divide(Multiply(a, b), b) == Ok(0x57)
  {
    DivideMultiply(a, b);
  }
}
