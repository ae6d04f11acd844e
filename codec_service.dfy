/** ReedSolomonCodeService: a code with a fixed number of parity symbols and its generator
    polynomial, built once. Every step of the encoder and the decoder works on Polynomial objects
    and byte arrays as the service does, and is proved to compute the value function of the same
    name in Encoding or Decoding. */
module CodecService {
  import opened Results
  import opened FieldArithmetic
  import opened Polynomials
  import GaloisField
  import PolynomialDivision
  import PolynomialTransforms
  import Encoding
  import Decoding
  import opened PolynomialObjects

  class ReedSolomonCodeService {
    /** k, the number of parity symbols. */
    const numParitySymbols: nat
    /** The product of (x + alpha^i) for i = 1 .. k. */
    const generator: Polynomial

    /** The generator is the one for k parity symbols, and there is at least one. */
    predicate Valid()
      reads generator.coefficients
    {
      numParitySymbols >= 1 && generator.Value() == Encoding.Generator(numParitySymbols)
    }

    /** The constructor for a valid parity count. */
    constructor (numParitySymbols: nat)
      requires numParitySymbols >= 1
      ensures this.numParitySymbols == numParitySymbols && Valid()
      ensures fresh(generator) && fresh(generator.coefficients)
    {
      this.numParitySymbols := numParitySymbols;
      var g := GenerateGeneratorPolynomial(numParitySymbols);
      this.generator := g;
    }

    /** The constructor's check: fewer than one parity symbol is rejected. */
    static method Create(numParitySymbols: int) returns (r: Result<ReedSolomonCodeService>)
      ensures r.Ok? <==> numParitySymbols >= 1
      ensures r.Err? ==> r.error == InvalidConfiguration
      ensures r.Ok? ==> fresh(r.value) && r.value.numParitySymbols == numParitySymbols && r.value.Valid()
    {
      if numParitySymbols < 1 {
        return Err(InvalidConfiguration);
      }
      var service := new ReedSolomonCodeService(numParitySymbols);
      return Ok(service);
    }

    /** GenerateGeneratorPolynomial: starts from 1 and multiplies in x + alpha^i for i = 1 .. degree. */
    static method GenerateGeneratorPolynomial(degree: nat) returns (g: Polynomial)
      ensures fresh(g) && fresh(g.coefficients)
      ensures g.Value() == Encoding.Generator(degree)
    {
      g := new Polynomial([1]);
      assert Trim([1]) == [1];
      for i := 1 to degree + 1
        invariant fresh(g) && fresh(g.coefficients)
        invariant g.Value() == Encoding.Generator(i - 1)
      {
        var factor := new Polynomial([GaloisField.Exp(i), 1]);
        assert factor.Value() == Encoding.Factor(i);
        var product := Polynomial.Times(g, factor);
        g := product.value;
      }
    }

    /** Encode as the service writes it: the message polynomial times x^k, plus its remainder
        modulo the generator, returned as the coefficients of the sum. */
    method EncodeAsWritten(message: seq<byte>) returns (r: Result<seq<byte>>)
      requires Valid()
      ensures r == Encoding.EncodeAsWritten(numParitySymbols, message)
    {
      if |message| == 0 {
        return Err(InvalidInput);
      }
      var shifted := ShiftMessage(message);
      var division := Polynomial.Divide(shifted, generator);
      if division.Err? {
        return Err(division.error);
      }
      var encrypted := Polynomial.Plus(division.value.1, shifted);
      return Ok(encrypted.coefficients[..]);
    }

    /** The encoder the model uses: the remainder, padded to k symbols, followed by the message
        itself, so that trailing zero bytes of the message are kept. A message whose bytes are all
        zero has remainder zero and is not divided. */
    method Encode(message: seq<byte>) returns (r: Result<seq<byte>>)
      requires Valid()
      ensures r == Encoding.Encode(numParitySymbols, message)
    {
      if |message| == 0 {
        return Err(InvalidInput);
      }
      var k := numParitySymbols;
      var shifted := ShiftMessage(message);
      var parity: seq<byte> := [];
      if shifted.Degree() >= 0 {
        Encoding.ShiftedLength(k, message);
        Encoding.DivideShifted(k, message);
        var division := Polynomial.Divide(shifted, generator);
        parity := division.value.1.coefficients[..];
      }
      return Ok(Encoding.Pad(parity, k) + message);
    }

    /** Lines one to three of Encode: the message polynomial times the polynomial whose only
        coefficient is a 1 at x^k. */
    method ShiftMessage(message: seq<byte>) returns (shifted: Polynomial)
      ensures fresh(shifted) && shifted.Value() == Encoding.Shifted(numParitySymbols, message)
    {
      var k := numParitySymbols;
      var messagePolynomial := new Polynomial(message);
      var shiftCoefficients := new byte[k + 1](_ => 0);
      shiftCoefficients[k] := 1;
      assert shiftCoefficients[..] == Monomial(1, k);
      var shift := new Polynomial(shiftCoefficients[..]);
      assert Trimmed(Monomial(1, k));
      var product := Polynomial.Times(messagePolynomial, shift);
      shifted := product.value;
    }

    /** Decode: rejects a word of at most k bytes; returns the bytes after the parity when every
        syndrome is zero; otherwise locates and corrects the errors in the received polynomial
        and returns the bytes after the parity of its corrected coefficients. */
    method Decode(received: seq<byte>) returns (r: Result<seq<byte>>)
      ensures r == Decoding.Decode(numParitySymbols, received)
    {
      var k := numParitySymbols;
      if |received| <= k {
        return Err(InvalidInput);
      }
      var receivedPolynomial := new Polynomial(received);
      var syndromes := ComputeSyndromes(receivedPolynomial);
      var zero := IsSyndromeZero(syndromes);
      if zero {
        return Ok(Decoding.ExtractMessage(k, received));
      }
      var errorLocator := FindErrorLocator(syndromes);
      var errorPositions := FindErrorPositions(errorLocator);
      var correctedMessage := CorrectErrors(receivedPolynomial, errorPositions, syndromes);
      if correctedMessage.Err? {
        return Err(correctedMessage.error);
      }
      return Ok(Decoding.ExtractMessage(k, correctedMessage.value.coefficients[..]));
    }

    /** ComputeSyndromes: syndromes[i] is the received polynomial at alpha^(i + 1). */
    method ComputeSyndromes(received: Polynomial) returns (syndromes: array<byte>)
      ensures fresh(syndromes)
      ensures syndromes[..] == Decoding.Syndromes(numParitySymbols, received.Value())
    {
      ghost var all := Decoding.Syndromes(numParitySymbols, received.Value());
      syndromes := new byte[numParitySymbols](_ => 0);
      for i := 0 to numParitySymbols
        invariant syndromes[..i] == all[..i]
      {
        var x := GaloisField.Exp(i + 1);
        syndromes[i] := received.Evaluate(x);
        assert syndromes[..i + 1] == syndromes[..i] + [all[i]];
      }
      assert syndromes[..] == syndromes[..numParitySymbols];
    }

    /** IsSyndromeZero: false at the first nonzero syndrome. */
    method IsSyndromeZero(syndromes: array<byte>) returns (b: bool)
      ensures b <==> Decoding.AllZero(syndromes[..])
    {
      for i := 0 to syndromes.Length
        invariant forall j :: 0 <= j < i ==> syndromes[j] == 0
      {
        if syndromes[i] != 0 {
          return false;
        }
      }
      return true;
    }

    /** FindErrorLocator: locator and locatorOld start as 1; iteration i computes the
        discrepancy and updates both. */
    method FindErrorLocator(syndromes: array<byte>) returns (locator: Polynomial)
      requires syndromes.Length == numParitySymbols
      ensures fresh(locator)
      ensures locator.Value() == Decoding.Locator(syndromes[..])
    {
      ghost var synd := syndromes[..];
      locator := new Polynomial([1]);
      var locatorOld := new Polynomial([1]);
      assert Trim([1]) == [1];
      var syndromeShift := 0;
      for i := 0 to numParitySymbols
        invariant fresh(locator) && fresh(locatorOld)
        invariant |locator.Value()| <= i + 1 && |locatorOld.Value()| <= i + 1
        invariant Decoding.LocatorFrom(synd, i, locator.Value(), locatorOld.Value()) == Decoding.Locator(synd)
      {
        var k := i + syndromeShift;
        var delta := Discrepancy(locator, syndromes, k);
        ghost var loc, prev := locator.Value(), locatorOld.Value();
        Decoding.RoundLength(loc, prev, delta, i + 1);
        locator, locatorOld := UpdateLocator(locator, locatorOld, delta);
      }
    }

    /** The inner loop of FindErrorLocator: syndromes[i] plus locator[j] * syndromes[i - j]
        for j = 1 .. the degree of the locator. */
    static method Discrepancy(locator: Polynomial, syndromes: array<byte>, i: nat) returns (delta: byte)
      requires i < syndromes.Length && |locator.Value()| <= i + 1
      ensures delta == Decoding.Delta(locator.Value(), syndromes[..], i)
    {
      delta := syndromes[i];
      var j := 1;
      while j < locator.Degree() + 1
        invariant 1 <= j && (j <= |locator.Value()| || j == 1)
        invariant delta == Decoding.DeltaUpTo(locator.Value(), syndromes[..], i, j)
      {
        delta := Add(delta, Multiply(locator.Get(j), syndromes[i - j]));
        j := j + 1;
      }
    }

    /** The rest of an iteration of FindErrorLocator: locatorOld is multiplied by x and, for a
        nonzero delta, the locator is corrected by delta * locatorOld, after the exchange when
        locatorOld has the larger degree. */
    static method UpdateLocator(locator: Polynomial, locatorOld: Polynomial, delta: byte)
      returns (nextLocator: Polynomial, nextOld: Polynomial)
      ensures nextLocator == locator || fresh(nextLocator)
      ensures fresh(nextOld)
      ensures (nextLocator.Value(), nextOld.Value()) == Decoding.Round(locator.Value(), locatorOld.Value(), delta)
    {
      var x := new Polynomial([0, 1]);
      assert x.Value() == [0, 1];
      var shiftedOld := Polynomial.Times(locatorOld, x);
      nextOld := shiftedOld.value;
      nextLocator := locator;
      if delta != 0 {
        var deltaPolynomial := new Polynomial([delta]);
        assert deltaPolynomial.Value() == [delta];
        if nextOld.Degree() > nextLocator.Degree() {
          var scaledOld := Polynomial.Times(nextOld, deltaPolynomial);
          var locatorNew := scaledOld.value;
          var inverse := GaloisField.Inverse(delta);
          MultiplyZeroRight(delta);
          var inversePolynomial := new Polynomial([inverse.value]);
          assert inversePolynomial.Value() == [inverse.value];
          var scaledLocator := Polynomial.Times(nextLocator, inversePolynomial);
          nextOld := scaledLocator.value;
          nextLocator := locatorNew;
        }
        var correction := Polynomial.Times(nextOld, deltaPolynomial);
        nextLocator := Polynomial.Plus(nextLocator, correction.value);
      }
    }

    /** FindErrorPositions: collects the exponents i in 0 .. 254 with errorLocator(alpha^i) == 0,
        then rewrites each as the position 255 - i, with 255 turned into 0. */
    method FindErrorPositions(errorLocator: Polynomial) returns (errorPositions: seq<int>)
      ensures errorPositions == Decoding.ErrorPositions(errorLocator.Value())
    {
      var exponents := FindRoots(errorLocator, 0);
      errorPositions := RootsToPositions(exponents);
    }

    /** The first loop of FindErrorPositions, run from exponent start on; FindErrorPositions
        starts it at 0. */
    static method FindRoots(errorLocator: Polynomial, start: nat) returns (roots: seq<nat>)
      requires start <= 255
      ensures roots == Decoding.RootsFrom(errorLocator.Value(), start)
    {
      ghost var loc := errorLocator.Value();
      roots := [];
      for i: nat := start to 255
        invariant Decoding.RootsFrom(loc, start) == roots + Decoding.RootsFrom(loc, i)
      {
        var root := IsRoot(errorLocator, i);
        Decoding.RootsFromExtend(loc, i, roots);
        if root {
          roots := roots + [i];
        }
      }
      assert Decoding.RootsFrom(loc, 255) == [];
    }

    /** The test in the first loop of FindErrorPositions: errorLocator(alpha^i) == 0. */
    static method IsRoot(errorLocator: Polynomial, i: nat) returns (b: bool)
      ensures b <==> Decoding.Vanishes(errorLocator.Value(), i)
    {
      var value := errorLocator.Evaluate(GaloisField.Exp(i));
      b := value == 0;
    }

    /** The second loop of FindErrorPositions, rewriting the list in place. */
    static method RootsToPositions(roots: seq<nat>) returns (errorPositions: seq<int>)
      requires forall j :: 0 <= j < |roots| ==> roots[j] < 255
      ensures errorPositions == Decoding.PositionsOf(roots)
    {
      errorPositions := roots;
      for j := 0 to |errorPositions|
        invariant |errorPositions| == |roots|
        invariant forall t :: 0 <= t < |roots| ==>
          errorPositions[t] == if t < j then Decoding.PositionOf(roots[t]) else roots[t]
      {
        var position := 255 - errorPositions[j];
        if position == 255 {
          position := 0;
        }
        errorPositions := errorPositions[j := position];
      }
    }

    /** CorrectErrors: recomputes the locator, forms Omega and sigma', computes the magnitude of
        every listed position into an array as long as the received coefficients, and then XORs
        the magnitudes into the received polynomial in place. A failing division or a position
        outside the array ends it before anything is written. */
    method CorrectErrors(received: Polynomial, errorPositions: seq<int>, syndromes: array<byte>) returns (r: Result<Polynomial>)
      requires syndromes.Length == numParitySymbols && Decoding.Positions(errorPositions)
      requires received.coefficients != syndromes
      modifies received.coefficients
      ensures Decoding.Correct(numParitySymbols, old(received.Value()), errorPositions, syndromes[..]) ==
        if r.Ok? then Ok(received.Value()) else Err(r.error)
      ensures r.Ok? ==> r.value == received
      ensures r.Err? ==> received.Value() == old(received.Value())
    {
      var k := numParitySymbols;
      ghost var synd, word := syndromes[..], received.Value();
      var omega, dsigma := ErrorEvaluatorAndDerivative(syndromes);
      var errorMagnitudes := ComputeMagnitudes(omega, dsigma, errorPositions, received.coefficients.Length);
      ghost var zeros: seq<byte> := seq(|word|, _ => 0);
      ghost var outcome := Decoding.MagnitudesFrom(omega.Value(), dsigma.Value(), errorPositions, zeros);
      assert Decoding.Correct(k, word, errorPositions, synd) ==
        if outcome.Ok? then Ok(seq(|word|, i requires 0 <= i < |word| => Add(word[i], outcome.value[i])))
        else Err(outcome.error);
      if errorMagnitudes.Err? {
        return Err(errorMagnitudes.error);
      }
      ApplyMagnitudes(received, errorMagnitudes.value);
      assert received.Value() == seq(|word|, i requires 0 <= i < |word| => Add(word[i], outcome.value[i]));
      return Ok(received);
    }

    /** The first four lines of CorrectErrors: the locator of the syndromes, the error evaluator
        Omega (the syndromes times the locator, below degree k) and the derivative sigma'. */
    method ErrorEvaluatorAndDerivative(syndromes: array<byte>) returns (omega: Polynomial, dsigma: Polynomial)
      requires syndromes.Length == numParitySymbols
      ensures Decoding.Locator(syndromes[..]) != []
      ensures omega.Value() == Decoding.ErrorEvaluator(numParitySymbols, syndromes[..], Decoding.Locator(syndromes[..]))
      ensures dsigma.Value() == Decoding.LocatorDerivative(Decoding.Locator(syndromes[..]))
    {
      var errorLocator := FindErrorLocator(syndromes);
      Decoding.LocatorShape(syndromes[..]);
      var syndromePolynomial := new Polynomial(syndromes[..]);
      var product := Polynomial.Times(syndromePolynomial, errorLocator);
      var errorPolynomial := Polynomial.DiscardHigherDegrees(product.value, numParitySymbols as int - 1);
      var errorLocatorDerivative := errorLocator.Derivative();
      omega, dsigma := errorPolynomial.value, errorLocatorDerivative.value;
    }

    /** The foreach loop of CorrectErrors: an array of length zeros, and for each position in
        turn its Forney magnitude stored at that position. */
    static method ComputeMagnitudes(omega: Polynomial, dsigma: Polynomial, errorPositions: seq<int>, length: nat)
      returns (r: Result<array<byte>>)
      requires Decoding.Positions(errorPositions)
      ensures r.Ok? ==> fresh(r.value)
      ensures Decoding.MagnitudesFrom(omega.Value(), dsigma.Value(), errorPositions, seq(length, _ => 0)) ==
        if r.Ok? then Ok(r.value[..]) else Err(r.error)
    {
      ghost var o, d := omega.Value(), dsigma.Value();
      var errorMagnitudes := new byte[length](_ => 0);
      assert errorMagnitudes[..] == seq(length, _ => 0);
      ghost var outcome := Decoding.MagnitudesFrom(o, d, errorPositions, errorMagnitudes[..]);
      for t := 0 to |errorPositions|
        invariant errorMagnitudes.Length == length
        invariant Decoding.Positions(errorPositions[t..])
        invariant Decoding.MagnitudesFrom(o, d, errorPositions[t..], errorMagnitudes[..]) == outcome
      {
        var position := errorPositions[t];
        ghost var rest := errorPositions[t..];
        assert rest[0] == position && rest[1..] == errorPositions[t + 1..];
        var magnitude := Magnitude(omega, dsigma, position);
        if magnitude.Err? {
          return Err(magnitude.error);
        }
        if position >= errorMagnitudes.Length {
          return Err(IndexOutOfRange);
        }
        errorMagnitudes[position] := magnitude.value;
      }
      assert errorPositions[|errorPositions|..] == [];
      return Ok(errorMagnitudes);
    }

    /** The body of the foreach loop of CorrectErrors: Omega(x) / sigma'(x) at x = alpha^(255 - position). */
    static method Magnitude(omega: Polynomial, dsigma: Polynomial, position: int) returns (magnitude: Result<byte>)
      requires 0 <= position < 255
      ensures magnitude == Decoding.Magnitude(omega.Value(), dsigma.Value(), position)
    {
      var xiInverse := GaloisField.Exp(255 - position);
      var errorValue := omega.Evaluate(xiInverse);
      var locatorDerivativeValue := dsigma.Evaluate(xiInverse);
      magnitude := GaloisField.Divide(errorValue, locatorDerivativeValue);
    }

    /** The last loop of CorrectErrors: received[i] ^= errorMagnitudes[i] for every coefficient. */
    static method ApplyMagnitudes(received: Polynomial, errorMagnitudes: array<byte>)
      requires errorMagnitudes.Length == received.coefficients.Length
      requires errorMagnitudes != received.coefficients
      modifies received.coefficients
      ensures |received.Value()| == |old(received.Value())|
      ensures forall i :: 0 <= i < |received.Value()| ==>
        received.Value()[i] == Add(old(received.Value())[i], errorMagnitudes[i])
    {
      ghost var word := received.Value();
      for i := 0 to received.coefficients.Length
        invariant received.coefficients.Length == |word|
        invariant forall j :: 0 <= j < i ==> received.coefficients[j] == Add(word[j], errorMagnitudes[j])
        invariant forall j :: i <= j < |word| ==> received.coefficients[j] == word[j]
      {
        var value := received.Get(i);
        received.Set(i, Add(value, errorMagnitudes[i]));
      }
    }
  }
}
