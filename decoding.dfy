/** The decoding half of ReedSolomonCodeService on values: the syndromes, the error locator of
    the Berlekamp-Massey style loop, the brute-force search for its roots, the Forney error
    magnitudes, the in-place correction and the decoder that strings them together. */
module Decoding {
  import opened Results
  import opened FieldArithmetic
  import opened Polynomials
  import GaloisField
  import PolynomialTransforms
  import Encoding

  /** ComputeSyndromes: the values of the received polynomial at alpha^1 .. alpha^k. */
  function Syndromes(k: nat, received: seq<byte>): (s: seq<byte>)
    ensures |s| == k
  {
    seq(k, i requires 0 <= i < k => Eval(received, GaloisField.Exp(i + 1)))
  }

  /** Syndrome i is the received polynomial at alpha^(i + 1). */
  lemma SyndromeAt(k: nat, received: seq<byte>, i: nat, x: byte)
    requires i < k && x == GaloisField.Exp(i + 1)
    ensures Syndromes(k, received)[i] == Eval(received, x)
  {
  }

  /** IsSyndromeZero. */
  predicate AllZero(s: seq<byte>) {
    forall i :: 0 <= i < |s| ==> s[i] == 0
  }

  /** ExtractMessage: the bytes after the first k, none when there are no more than k. */
  function ExtractMessage(k: nat, received: seq<byte>): (m: seq<byte>)
    ensures |received| <= k ==> m == []
    ensures |received| > k ==> received[..k] + m == received
  {
    if |received| <= k then [] else received[k..]
  }

  /** The syndromes of every codeword vanish. */
  lemma CodewordSyndromes(k: nat, message: seq<byte>)
    requires message != []
    ensures AllZero(Syndromes(k, Trim(Encoding.Encode(k, message).value)))
  {
    var c := Trim(Encoding.Encode(k, message).value);
    forall j | 1 <= j <= k
      ensures Eval(c, GaloisField.Exp(j)) == 0
    {
      Encoding.CodewordRoots(k, message, j);
    }
    RootsGiveZeroSyndromes(k, c);
  }

  /** A polynomial with roots alpha^1 .. alpha^k has k zero syndromes. */
  lemma RootsGiveZeroSyndromes(k: nat, received: seq<byte>)
    requires forall j :: 1 <= j <= k ==> Eval(received, GaloisField.Exp(j)) == 0
    ensures AllZero(Syndromes(k, received))
  {
    forall i | 0 <= i < k
      ensures Syndromes(k, received)[i] == 0
    {
      var x := GaloisField.Exp(i + 1);
      SyndromeAt(k, received, i, x);
    }
  }

  /** Syndromes are additive: the syndromes of codeword + error are those of the error alone. */
  lemma SyndromesOfError(k: nat, c: seq<byte>, e: seq<byte>)
    requires AllZero(Syndromes(k, c))
    ensures Syndromes(k, Sum(c, e)) == Syndromes(k, e)
  {
    forall i | 0 <= i < k
      ensures Syndromes(k, Sum(c, e))[i] == Syndromes(k, e)[i]
    {
      var x := GaloisField.Exp(i + 1);
      assert Syndromes(k, c)[i] == Eval(c, x) == 0;
      EvalSum(c, e, x);
      AddZero(Eval(e, x));
    }
  }

  /** The discrepancy after the inner loop of FindErrorLocator has run for j = 1 .. n - 1:
      syndromes[i] plus locator[j] * syndromes[i - j], added in increasing j. */
  function DeltaUpTo(loc: seq<byte>, synd: seq<byte>, i: nat, n: nat): byte
    requires i < |synd| && n <= i + 1
  {
    if n <= 1 then synd[i]
    else Add(DeltaUpTo(loc, synd, i, n - 1), Multiply(Coeff(loc, n - 1), synd[i - (n - 1)]))
  }

  /** The discrepancy of step i, j running up to the degree of the locator. The bound on the
      locator's length is what keeps syndromes[i - j] inside the array. */
  function Delta(loc: seq<byte>, synd: seq<byte>, i: nat): byte
    requires i < |synd| && |loc| <= i + 1
  {
    DeltaUpTo(loc, synd, i, |loc|)
  }

  lemma {:induction false} ConvDelta(loc: seq<byte>, synd: seq<byte>, i: nat, n: nat)
    requires Coeff(loc, 0) == 1 && i < |synd| && 1 <= n <= i + 1
    ensures Conv(loc, synd, i, n) == DeltaUpTo(loc, synd, i, n)
  {
    if n == 1 {
      MultiplyOneLeft(synd[i]);
      AddZero(synd[i]);
    } else {
      var m := n - 1;
      ConvDelta(loc, synd, i, m);
    }
  }

  /** The discrepancy is the coefficient of x^i in sigma(x) S(x). */
  lemma DeltaIsCoefficient(loc: seq<byte>, synd: seq<byte>, i: nat)
    requires Coeff(loc, 0) == 1 && i < |synd| && |loc| <= i + 1
    ensures Delta(loc, synd, i) == Coeff(Mul(loc, synd), i)
  {
    MulCoeff(loc, synd, i);
    ConvDelta(loc, synd, i, |loc|);
  }

  /** One iteration of FindErrorLocator's loop from (locator, locatorOld) with discrepancy
      delta: locatorOld is multiplied by x; a nonzero delta then adds delta * locatorOld to the
      locator, after exchanging the two (scaled by delta and 1 / delta) when locatorOld has the
      larger degree. */
  function Round(loc: seq<byte>, prev: seq<byte>, delta: byte): (seq<byte>, seq<byte>) {
    var shifted := Mul(prev, [0, 1]);
    if delta == 0 then (loc, shifted)
    else if |shifted| - 1 > |loc| - 1 then
      var locNew := Mul(shifted, [delta]);
      var prev2 := Mul(loc, [GaloisField.Inverse(delta).value]);
      (Sum(locNew, Mul(prev2, [delta])), prev2)
    else (Sum(loc, Mul(shifted, [delta])), shifted)
  }

  /** A round lengthens each polynomial by at most one. */
  lemma RoundLength(loc: seq<byte>, prev: seq<byte>, delta: byte, n: nat)
    requires |loc| <= n && |prev| <= n
    ensures |Round(loc, prev, delta).0| <= n + 1 && |Round(loc, prev, delta).1| <= n + 1
  {
  }

  /** Multiplying by a constant scales the constant term. */
  lemma ScaledConstant(p: seq<byte>, c: byte)
    ensures Coeff(Mul(p, [c]), 0) == Multiply(Coeff(p, 0), c)
  {
    assert [c] == Monomial(c, 0);
    MulMonomialRight(p, c, 0, 0);
  }

  /** Multiplying by x leaves no constant term. */
  lemma ShiftedConstant(p: seq<byte>)
    ensures Coeff(Mul(p, [0, 1]), 0) == 0
  {
    assert [0, 1] == Monomial(1, 1);
    MulMonomialRight(p, 1, 1, 0);
  }

  /** A round keeps the locator trimmed with constant term 1. */
  lemma RoundConstant(loc: seq<byte>, prev: seq<byte>, delta: byte)
    requires Trimmed(loc) && Coeff(loc, 0) == 1
    ensures Trimmed(Round(loc, prev, delta).0) && Coeff(Round(loc, prev, delta).0, 0) == 1
  {
    var shifted := Mul(prev, [0, 1]);
    if delta != 0 {
      ShiftedConstant(prev);
      var a := Mul(shifted, [delta]);
      ScaledConstant(shifted, delta);
      MultiplyZeroLeft(delta);
      assert Coeff(a, 0) == 0;
      if |shifted| - 1 > |loc| - 1 {
        var inv := GaloisField.Inverse(delta).value;
        var prev2 := Mul(loc, [inv]);
        var b := Mul(prev2, [delta]);
        ScaledConstant(loc, inv);
        MultiplyOneLeft(inv);
        ScaledConstant(prev2, delta);
        MultiplyCommutes(inv, delta);
        assert Coeff(b, 0) == 1;
        SumCoeff(a, b, 0);
        AddZero(1);
        assert Round(loc, prev, delta).0 == Sum(a, b);
      } else {
        SumCoeff(loc, a, 0);
        AddZero(1);
        assert Round(loc, prev, delta).0 == Sum(loc, a);
      }
    }
  }

  /** FindErrorLocator's loop from iteration i on. */
  function LocatorFrom(synd: seq<byte>, i: nat, loc: seq<byte>, prev: seq<byte>): (r: seq<byte>)
    requires i <= |synd| && |loc| <= i + 1 && |prev| <= i + 1
    ensures |r| <= |synd| + 1
    decreases |synd| - i
  {
    if i == |synd| then loc
    else
      var delta := Delta(loc, synd, i);
      RoundLength(loc, prev, delta, i + 1);
      var next := Round(loc, prev, delta);
      LocatorFrom(synd, i + 1, next.0, next.1)
  }

  /** FindErrorLocator: both polynomials start as the constant 1. */
  function Locator(synd: seq<byte>): seq<byte> {
    LocatorFrom(synd, 0, [1], [1])
  }

  /** One iteration of FindErrorLocator's loop. */
  lemma LocatorFromStep(synd: seq<byte>, i: nat, loc: seq<byte>, prev: seq<byte>, delta: byte, next: (seq<byte>, seq<byte>))
    requires i < |synd| && |loc| <= i + 1 && |prev| <= i + 1
    requires delta == Delta(loc, synd, i) && next == Round(loc, prev, delta)
    ensures |next.0| <= i + 2 && |next.1| <= i + 2
    ensures LocatorFrom(synd, i, loc, prev) == LocatorFrom(synd, i + 1, next.0, next.1)
  {
    RoundLength(loc, prev, delta, i + 1);
  }

  lemma {:induction false} LocatorFromConstant(synd: seq<byte>, i: nat, loc: seq<byte>, prev: seq<byte>)
    requires i <= |synd| && |loc| <= i + 1 && |prev| <= i + 1
    requires Trimmed(loc) && Coeff(loc, 0) == 1
    ensures Trimmed(LocatorFrom(synd, i, loc, prev)) && Coeff(LocatorFrom(synd, i, loc, prev), 0) == 1
    decreases |synd| - i
  {
    if i < |synd| {
      var delta := Delta(loc, synd, i);
      var next := Round(loc, prev, delta);
      LocatorFromStep(synd, i, loc, prev, delta, next);
      RoundConstant(loc, prev, delta);
      LocatorFromConstant(synd, i + 1, next.0, next.1);
    }
  }

  /** The error locator has constant term 1 and degree at most k. */
  lemma LocatorShape(synd: seq<byte>)
    ensures Trimmed(Locator(synd)) && Coeff(Locator(synd), 0) == 1 && Locator(synd) != []
    ensures |Locator(synd)| <= |synd| + 1
  {
    LocatorFromConstant(synd, 0, [1], [1]);
  }

  /** alpha^e is a root of the locator. */
  predicate Vanishes(loc: seq<byte>, e: nat) {
    Eval(loc, GaloisField.Exp(e)) == 0
  }

  /** The first loop of FindErrorPositions from exponent n on: the exponents n .. 254 at whose
      power of alpha the locator vanishes, in ascending order. */
  function RootsFrom(loc: seq<byte>, n: nat): (r: seq<nat>)
    ensures forall j :: 0 <= j < |r| ==> n <= r[j] < 255
    decreases 255 - n
  {
    if n >= 255 then []
    else (if Vanishes(loc, n) then [n] else []) + RootsFrom(loc, n + 1)
  }

  lemma {:induction false} RootsFromMembers(loc: seq<byte>, n: nat)
    ensures forall i :: i in RootsFrom(loc, n) <==> n <= i < 255 && Vanishes(loc, i)
    decreases 255 - n
  {
    if n < 255 {
      var m := n + 1;
      RootsFromMembers(loc, m);
      var head: seq<nat> := if Vanishes(loc, n) then [n] else [];
      assert RootsFrom(loc, n) == head + RootsFrom(loc, m);
    }
  }

  /** One step of the first loop of FindErrorPositions: the exponents found so far followed by
      the roots from n on are those found with n added when it is a root, followed by the roots
      from n + 1 on. */
  lemma RootsFromExtend(loc: seq<byte>, n: nat, found: seq<nat>)
    requires n < 255
    ensures Vanishes(loc, n) ==> found + RootsFrom(loc, n) == (found + [n]) + RootsFrom(loc, n + 1)
    ensures !Vanishes(loc, n) ==> found + RootsFrom(loc, n) == found + RootsFrom(loc, n + 1)
  {
    var rest := RootsFrom(loc, n + 1);
    if Vanishes(loc, n) {
      assert RootsFrom(loc, n) == [n] + rest;
      assert found + ([n] + rest) == (found + [n]) + rest;
    } else {
      assert RootsFrom(loc, n) == rest;
    }
  }

  /** Strictly increasing. */
  predicate Ascending(s: seq<nat>) {
    forall a, b :: 0 <= a < b < |s| ==> s[a] < s[b]
  }

  /** The exponents come out in increasing order. */
  lemma {:induction false} RootsAscending(loc: seq<byte>, n: nat)
    ensures Ascending(RootsFrom(loc, n))
    decreases 255 - n
  {
    if n < 255 {
      var m := n + 1;
      RootsAscending(loc, m);
      var rest := RootsFrom(loc, m);
      var head: seq<nat> := if Vanishes(loc, n) then [n] else [];
      assert RootsFrom(loc, n) == head + rest;
      AscendingPrepend(n, head, rest);
    }
  }

  /** An optional n in front of an ascending list of numbers above n keeps it ascending. */
  lemma AscendingPrepend(n: nat, head: seq<nat>, rest: seq<nat>)
    requires |head| <= 1 && (forall j :: 0 <= j < |head| ==> head[j] == n)
    requires forall j :: 0 <= j < |rest| ==> n < rest[j]
    requires Ascending(rest)
    ensures Ascending(head + rest)
  {
    var r := head + rest;
    forall a, b | 0 <= a < b < |r|
      ensures r[a] < r[b]
    {
      assert r[b] == rest[b - |head|];
      if a >= |head| {
        assert r[a] == rest[a - |head|];
      }
    }
  }

  /** The second loop of FindErrorPositions: exponent i becomes position 255 - i, and 255 is
      turned into 0. */
  function PositionOf(i: nat): int {
    if 255 - i == 255 then 0 else 255 - i
  }

  /** A list of positions within the 255 symbols of a code word. */
  predicate Positions(ps: seq<int>) {
    forall j :: 0 <= j < |ps| ==> 0 <= ps[j] < 255
  }

  /** The exponent whose position is p: the inverse of PositionOf. */
  function ExponentOf(p: int): (i: nat)
    requires 0 <= p < 255
    ensures i < 255 && PositionOf(i) == p
    ensures forall e: nat :: e < 255 && PositionOf(e) == p ==> e == i
  {
    if p == 0 then 0 else 255 - p
  }

  /** The second loop of FindErrorPositions, rewriting every exponent as a position. */
  function PositionsOf(roots: seq<nat>): (ps: seq<int>)
    requires forall j :: 0 <= j < |roots| ==> roots[j] < 255
    ensures Positions(ps)
  {
    seq(|roots|, j requires 0 <= j < |roots| => PositionOf(roots[j]))
  }

  /** Rewriting ascending exponents gives each position of a listed exponent exactly once. */
  lemma PositionsOfMembers(roots: seq<nat>)
    requires forall j :: 0 <= j < |roots| ==> roots[j] < 255
    requires Ascending(roots)
    ensures forall p :: p in PositionsOf(roots) <==> 0 <= p < 255 && ExponentOf(p) in roots
    ensures forall a, b :: 0 <= a < b < |PositionsOf(roots)| ==> PositionsOf(roots)[a] != PositionsOf(roots)[b]
  {
    var ps := PositionsOf(roots);
    forall p | p in ps
      ensures 0 <= p < 255 && ExponentOf(p) in roots
    {
      var j :| 0 <= j < |ps| && ps[j] == p;
      assert ExponentOf(p) == roots[j];
    }
    forall p | 0 <= p < 255 && ExponentOf(p) in roots
      ensures p in ps
    {
      var j :| 0 <= j < |roots| && roots[j] == ExponentOf(p);
      assert ps[j] == p;
    }
    forall a, b | 0 <= a < b < |ps|
      ensures ps[a] != ps[b]
    {
      assert roots[a] < roots[b];
    }
  }

  /** alpha^(255 - p) and alpha^ExponentOf(p) are the same element. */
  lemma VanishesAtPosition(loc: seq<byte>, p: int)
    requires 0 <= p < 255
    ensures Vanishes(loc, 255 - p) == Vanishes(loc, ExponentOf(p))
  {
  }

  /** FindErrorPositions. */
  function ErrorPositions(loc: seq<byte>): (ps: seq<int>)
    ensures Positions(ps)
  {
    PositionsOf(RootsFrom(loc, 0))
  }

  /** The positions are those p in 0 .. 254 whose alpha^(255 - p) is a root of the locator,
      each listed once. */
  lemma ErrorPositionsMembers(loc: seq<byte>)
    ensures forall p :: p in ErrorPositions(loc) <==> 0 <= p < 255 && Vanishes(loc, 255 - p)
    ensures forall a, b :: 0 <= a < b < |ErrorPositions(loc)| ==> ErrorPositions(loc)[a] != ErrorPositions(loc)[b]
  {
    var roots := RootsFrom(loc, 0);
    RootsFromMembers(loc, 0);
    RootsAscending(loc, 0);
    PositionsOfMembers(roots);
    forall p | 0 <= p < 255
      ensures Vanishes(loc, 255 - p) == Vanishes(loc, ExponentOf(p))
    {
      VanishesAtPosition(loc, p);
    }
  }

  /** Omega: the coefficients of S(x) sigma(x) below x^k (DiscardHigherDegrees with k - 1). */
  function ErrorEvaluator(k: nat, synd: seq<byte>, loc: seq<byte>): seq<byte> {
    PolynomialTransforms.DiscardHigherDegrees(Mul(Trim(synd), loc), k - 1).value
  }

  lemma ErrorEvaluatorCoeff(k: nat, synd: seq<byte>, loc: seq<byte>, i: nat)
    ensures Coeff(ErrorEvaluator(k, synd, loc), i) == if i < k then Coeff(Mul(synd, loc), i) else 0
  {
    MulTrim(synd, loc);
    PolynomialTransforms.DiscardCoeff(Mul(Trim(synd), loc), k - 1, i);
  }

  /** sigma'(x), the formal derivative of the locator. */
  function LocatorDerivative(loc: seq<byte>): seq<byte>
    requires loc != []
  {
    PolynomialTransforms.Derivative(loc).value
  }

  /** Forney's magnitude for position p: Omega(alpha^(255 - p)) / sigma'(alpha^(255 - p)),
      DivisionByZero when sigma' vanishes there. */
  function Magnitude(omega: seq<byte>, dsigma: seq<byte>, p: int): (r: Result<byte>)
    requires 0 <= p < 255
    ensures var x := GaloisField.Exp(255 - p);
      (r.Ok? <==> Eval(dsigma, x) != 0) &&
      (r.Err? ==> r.error == DivisionByZero) &&
      (r.Ok? ==> Multiply(r.value, Eval(dsigma, x)) == Eval(omega, x))
  {
    var x := GaloisField.Exp(255 - p);
    GaloisField.Divide(Eval(omega, x), Eval(dsigma, x))
  }

  /** Position p can be corrected in a word of n bytes: sigma' does not vanish at
      alpha^(255 - p) and p is an index of the word. */
  predicate Correctable(dsigma: seq<byte>, p: int, n: nat)
    requires 0 <= p < 255
  {
    Eval(dsigma, GaloisField.Exp(255 - p)) != 0 && p < n
  }

  /** The exception a position that cannot be corrected raises: the division comes first. */
  function Failure(dsigma: seq<byte>, p: int): Error
    requires 0 <= p < 255
  {
    if Eval(dsigma, GaloisField.Exp(255 - p)) == 0 then DivisionByZero else IndexOutOfRange
  }

  /** The foreach loop of CorrectErrors over the remaining positions, writing each magnitude
      into mags. */
  function MagnitudesFrom(omega: seq<byte>, dsigma: seq<byte>, positions: seq<int>, mags: seq<byte>): (r: Result<seq<byte>>)
    requires Positions(positions)
    ensures r.Ok? ==> |r.value| == |mags|
    decreases |positions|
  {
    if positions == [] then Ok(mags)
    else
      var p := positions[0];
      match Magnitude(omega, dsigma, p)
      case Err(e) => Err(e)
      case Ok(m) =>
        if p >= |mags| then Err(IndexOutOfRange)
        else MagnitudesFrom(omega, dsigma, positions[1..], mags[p := m])
  }

  /** One iteration of the loop: a correctable position stores its magnitude and the loop goes
      on; any other position ends it with that position's exception. */
  lemma MagnitudesFromStep(omega: seq<byte>, dsigma: seq<byte>, positions: seq<int>, mags: seq<byte>)
    requires Positions(positions) && positions != []
    ensures Positions(positions[1..])
    ensures MagnitudesFrom(omega, dsigma, positions, mags) ==
      if Correctable(dsigma, positions[0], |mags|) then
        MagnitudesFrom(omega, dsigma, positions[1..], mags[positions[0] := Magnitude(omega, dsigma, positions[0]).value])
      else Err(Failure(dsigma, positions[0]))
  {
    var p := positions[0];
    var m := Magnitude(omega, dsigma, p);
    if Correctable(dsigma, p, |mags|) {
      assert m.Ok?;
    } else {
      assert m.Err? ==> m.error == DivisionByZero;
    }
  }

  /** The loop succeeds exactly when every position is correctable. */
  lemma {:induction false} MagnitudesFromSucceeds(omega: seq<byte>, dsigma: seq<byte>, positions: seq<int>, mags: seq<byte>)
    requires Positions(positions)
    ensures MagnitudesFrom(omega, dsigma, positions, mags).Ok? <==>
      forall j :: 0 <= j < |positions| ==> Correctable(dsigma, positions[j], |mags|)
    decreases |positions|
  {
    if positions != [] {
      MagnitudesFromStep(omega, dsigma, positions, mags);
      var p, rest := positions[0], positions[1..];
      if Correctable(dsigma, p, |mags|) {
        var mags2 := mags[p := Magnitude(omega, dsigma, p).value];
        MagnitudesFromSucceeds(omega, dsigma, rest, mags2);
        assert forall j :: 0 <= j < |rest| ==> rest[j] == positions[j + 1];
      }
    }
  }

  /** What is not in a sequence is not in its tail. */
  lemma NotInTail(s: seq<int>, i: int)
    requires s != [] && i !in s
    ensures i !in s[1..]
  {
    assert forall t :: 0 <= t < |s| - 1 ==> s[1..][t] == s[t + 1];
  }

  /** On success every index that is not listed keeps its entry. */
  lemma {:induction false} MagnitudesFromKeeps(omega: seq<byte>, dsigma: seq<byte>, positions: seq<int>, mags: seq<byte>)
    requires Positions(positions) && MagnitudesFrom(omega, dsigma, positions, mags).Ok?
    ensures forall i :: 0 <= i < |mags| && i !in positions ==> MagnitudesFrom(omega, dsigma, positions, mags).value[i] == mags[i]
    decreases |positions|
  {
    if positions != [] {
      MagnitudesFromStep(omega, dsigma, positions, mags);
      var p, rest := positions[0], positions[1..];
      assert Correctable(dsigma, p, |mags|);
      var mags2 := mags[p := Magnitude(omega, dsigma, p).value];
      var r := MagnitudesFrom(omega, dsigma, positions, mags);
      assert r == MagnitudesFrom(omega, dsigma, rest, mags2);
      MagnitudesFromKeeps(omega, dsigma, rest, mags2);
      forall i | 0 <= i < |mags| && i !in positions
        ensures r.value[i] == mags[i]
      {
        assert p in positions;
        NotInTail(positions, i);
        assert mags2[i] == mags[i];
      }
    }
  }

  /** On success every listed index holds its magnitude. */
  lemma {:induction false} MagnitudesFromValues(omega: seq<byte>, dsigma: seq<byte>, positions: seq<int>, mags: seq<byte>)
    requires Positions(positions) && MagnitudesFrom(omega, dsigma, positions, mags).Ok?
    ensures forall j :: 0 <= j < |positions| ==>
      positions[j] < |mags| &&
      Magnitude(omega, dsigma, positions[j]) == Ok(MagnitudesFrom(omega, dsigma, positions, mags).value[positions[j]])
    decreases |positions|
  {
    if positions != [] {
      MagnitudesFromStep(omega, dsigma, positions, mags);
      var p, rest := positions[0], positions[1..];
      var r := MagnitudesFrom(omega, dsigma, positions, mags);
      assert Correctable(dsigma, p, |mags|);
      var mags2 := mags[p := Magnitude(omega, dsigma, p).value];
      MagnitudesFromValues(omega, dsigma, rest, mags2);
      MagnitudesFromKeeps(omega, dsigma, rest, mags2);
      assert r == MagnitudesFrom(omega, dsigma, rest, mags2);
      forall j | 0 <= j < |positions|
        ensures positions[j] < |mags| && Magnitude(omega, dsigma, positions[j]) == Ok(r.value[positions[j]])
      {
        if j > 0 {
          assert positions[j] == rest[j - 1];
        } else if p !in rest {
          assert r.value[p] == mags2[p];
        } else {
          var t :| 0 <= t < |rest| && rest[t] == p;
        }
      }
    }
  }

  /** On failure the loop stopped at the first position that is not correctable, with that
      position's exception. */
  lemma {:induction false} MagnitudesFromFails(omega: seq<byte>, dsigma: seq<byte>, positions: seq<int>, mags: seq<byte>)
    requires Positions(positions) && MagnitudesFrom(omega, dsigma, positions, mags).Err?
    ensures exists j ::
      0 <= j < |positions| && !Correctable(dsigma, positions[j], |mags|) &&
      (forall t :: 0 <= t < j ==> Correctable(dsigma, positions[t], |mags|)) &&
      MagnitudesFrom(omega, dsigma, positions, mags).error == Failure(dsigma, positions[j])
    decreases |positions|
  {
    MagnitudesFromStep(omega, dsigma, positions, mags);
    var p, rest := positions[0], positions[1..];
    if Correctable(dsigma, p, |mags|) {
      var mags2 := mags[p := Magnitude(omega, dsigma, p).value];
      MagnitudesFromFails(omega, dsigma, rest, mags2);
      var j :| 0 <= j < |rest| && !Correctable(dsigma, rest[j], |mags|) &&
        (forall t :: 0 <= t < j ==> Correctable(dsigma, rest[t], |mags|)) &&
        MagnitudesFrom(omega, dsigma, rest, mags2).error == Failure(dsigma, rest[j]);
      FailureLater(dsigma, positions, |mags|, j, MagnitudesFrom(omega, dsigma, positions, mags).error);
    } else {
      assert MagnitudesFrom(omega, dsigma, positions, mags).error == Failure(dsigma, positions[0]);
    }
  }

  /** The first failure among the later positions is the first failure of all when the first
      position is correctable. */
  lemma FailureLater(dsigma: seq<byte>, positions: seq<int>, n: nat, j: nat, e: Error)
    requires Positions(positions) && positions != [] && Correctable(dsigma, positions[0], n)
    requires j < |positions| - 1 && !Correctable(dsigma, positions[1..][j], n)
    requires forall t :: 0 <= t < j ==> Correctable(dsigma, positions[1..][t], n)
    requires e == Failure(dsigma, positions[1..][j])
    ensures exists i ::
      0 <= i < |positions| && !Correctable(dsigma, positions[i], n) &&
      (forall t :: 0 <= t < i ==> Correctable(dsigma, positions[t], n)) &&
      e == Failure(dsigma, positions[i])
  {
    var rest := positions[1..];
    assert positions[j + 1] == rest[j];
    forall t | 0 <= t < j + 1
      ensures Correctable(dsigma, positions[t], n)
    {
      if t > 0 {
        assert positions[t] == rest[t - 1];
      }
    }
  }

  /** CorrectErrors on the coefficients of the received polynomial: each listed position is
      XORed with its Forney magnitude. */
  function Correct(k: nat, received: seq<byte>, positions: seq<int>, synd: seq<byte>): (r: Result<seq<byte>>)
    requires Positions(positions)
    ensures r.Ok? ==> |r.value| == |received|
  {
    var loc := Locator(synd);
    LocatorShape(synd);
    var omega, dsigma := ErrorEvaluator(k, synd, loc), LocatorDerivative(loc);
    match MagnitudesFrom(omega, dsigma, positions, seq(|received|, _ => 0))
    case Err(e) => Err(e)
    case Ok(mags) => Ok(seq(|received|, i requires 0 <= i < |received| => Add(received[i], mags[i])))
  }

  /** Correct succeeds exactly when every position is correctable. */
  lemma CorrectSucceeds(k: nat, received: seq<byte>, positions: seq<int>, synd: seq<byte>)
    requires Positions(positions)
    ensures Locator(synd) != []
    ensures Correct(k, received, positions, synd).Ok? <==>
      forall j :: 0 <= j < |positions| ==> Correctable(LocatorDerivative(Locator(synd)), positions[j], |received|)
  {
    var loc := Locator(synd);
    LocatorShape(synd);
    var omega, dsigma := ErrorEvaluator(k, synd, loc), LocatorDerivative(loc);
    var zeros: seq<byte> := seq(|received|, _ => 0);
    MagnitudesFromSucceeds(omega, dsigma, positions, zeros);
  }

  /** A failing Correct raises the exception of the first position that is not correctable. */
  lemma CorrectFails(k: nat, received: seq<byte>, positions: seq<int>, synd: seq<byte>)
    requires Positions(positions) && Correct(k, received, positions, synd).Err?
    ensures Locator(synd) != []
    ensures var dsigma := LocatorDerivative(Locator(synd));
      exists j :: 0 <= j < |positions| && !Correctable(dsigma, positions[j], |received|) &&
        (forall t :: 0 <= t < j ==> Correctable(dsigma, positions[t], |received|)) &&
        Correct(k, received, positions, synd).error == Failure(dsigma, positions[j])
  {
    var loc := Locator(synd);
    LocatorShape(synd);
    var omega, dsigma := ErrorEvaluator(k, synd, loc), LocatorDerivative(loc);
    var zeros: seq<byte> := seq(|received|, _ => 0);
    MagnitudesFromFails(omega, dsigma, positions, zeros);
  }

  /** A successful Correct adds its magnitude to every listed position and leaves the rest of
      the word as it was. */
  lemma CorrectValues(k: nat, received: seq<byte>, positions: seq<int>, synd: seq<byte>)
    requires Positions(positions) && Correct(k, received, positions, synd).Ok?
    ensures Locator(synd) != []
    ensures var r := Correct(k, received, positions, synd).value; |r| == |received|
    ensures var loc := Locator(synd);
      var omega, dsigma := ErrorEvaluator(k, synd, loc), LocatorDerivative(loc);
      var r := Correct(k, received, positions, synd).value;
      forall j :: 0 <= j < |positions| ==>
        positions[j] < |received| &&
        Magnitude(omega, dsigma, positions[j]) == Ok(Add(r[positions[j]], received[positions[j]]))
    ensures var r := Correct(k, received, positions, synd).value;
      forall i :: 0 <= i < |received| && i !in positions ==> r[i] == received[i]
  {
    var loc := Locator(synd);
    LocatorShape(synd);
    var omega, dsigma := ErrorEvaluator(k, synd, loc), LocatorDerivative(loc);
    var zeros: seq<byte> := seq(|received|, _ => 0);
    MagnitudesFromValues(omega, dsigma, positions, zeros);
    MagnitudesFromKeeps(omega, dsigma, positions, zeros);
    var mags := MagnitudesFrom(omega, dsigma, positions, zeros).value;
    var r := Correct(k, received, positions, synd).value;
    forall i | 0 <= i < |received|
      ensures Add(r[i], received[i]) == mags[i]
    {
      AddCommutes(received[i], mags[i]);
      AddAssociates(mags[i], received[i], received[i]);
      AddSelf(received[i]);
      AddZero(mags[i]);
    }
    forall i | 0 <= i < |received| && i !in positions
      ensures r[i] == received[i]
    {
      AddZero(received[i]);
    }
  }

  /** Decode: a word no longer than the parity count is rejected (InvalidInput); with zero
      syndromes the bytes after the parity are returned as received; otherwise the errors are
      located and corrected and the bytes after the parity of the corrected word returned. */
  function Decode(k: nat, received: seq<byte>): (r: Result<seq<byte>>)
    ensures r.Ok? ==> k < |received| && |r.value| <= |received| - k
  {
    if |received| <= k then Err(InvalidInput)
    else
      var p := Trim(received);
      var synd := Syndromes(k, p);
      if AllZero(synd) then Ok(ExtractMessage(k, received))
      else
        match Correct(k, p, ErrorPositions(Locator(synd)), synd)
        case Err(e) => Err(e)
        case Ok(c) => Ok(ExtractMessage(k, c))
  }

  /** A word with a nonzero syndrome is decoded through Correct: the decoder fails exactly when
      Correct does, with its exception, and otherwise returns the corrected word after its
      parity. */
  lemma DecodeCorrects(k: nat, received: seq<byte>)
    requires |received| > k && !AllZero(Syndromes(k, Trim(received)))
    ensures var p := Trim(received);
      var synd := Syndromes(k, p);
      var c := Correct(k, p, ErrorPositions(Locator(synd)), synd);
      (Decode(k, received).Ok? <==> c.Ok?) &&
      (c.Err? ==> Decode(k, received).error == c.error) &&
      (c.Ok? ==> Decode(k, received).value == ExtractMessage(k, c.value))
  {
  }

  /** Correct fails only with one of the two exceptions of its loop. */
  lemma CorrectErrors(k: nat, received: seq<byte>, positions: seq<int>, synd: seq<byte>)
    requires Positions(positions) && Correct(k, received, positions, synd).Err?
    ensures Correct(k, received, positions, synd).error in {DivisionByZero, IndexOutOfRange}
  {
    CorrectFails(k, received, positions, synd);
  }

  /** The decoder's failures: InvalidInput exactly for a word of at most k bytes, otherwise only
      the two exceptions of the correction. With zero syndromes the message is the word after its
      parity; after a correction it is the trimmed word after its parity, so trailing zero bytes
      of the word are not part of it. */
  lemma DecodeOutcomes(k: nat, received: seq<byte>)
    ensures Decode(k, received) == Err(InvalidInput) <==> |received| <= k
    ensures Decode(k, received).Err? ==> Decode(k, received).error in {InvalidInput, DivisionByZero, IndexOutOfRange}
    ensures |received| > k && AllZero(Syndromes(k, Trim(received))) ==> Decode(k, received) == Ok(received[k..])
    ensures var p := Trim(received);
      Decode(k, received).Ok? && !AllZero(Syndromes(k, p)) ==>
        |Decode(k, received).value| == if |p| <= k then 0 else |p| - k
  {
    if |received| > k {
      var p := Trim(received);
      var synd := Syndromes(k, p);
      if !AllZero(synd) {
        var positions := ErrorPositions(Locator(synd));
        var c := Correct(k, p, positions, synd);
        DecodeCorrects(k, received);
        if c.Err? {
          CorrectErrors(k, p, positions, synd);
        }
      }
    }
  }

  /** A codeword of the corrected encoder decodes to its message. */
  lemma DecodeEncode(k: nat, message: seq<byte>)
    requires message != []
    ensures Decode(k, Encoding.Encode(k, message).value) == Ok(message)
  {
    var c := Encoding.Encode(k, message).value;
    CodewordSyndromes(k, message);
  }

  /** A codeword of the encoder as written decodes to the message without its trailing zeros. */
  lemma DecodeEncodeAsWritten(k: nat, message: seq<byte>)
    requires Trim(message) != []
    ensures Encoding.EncodeAsWritten(k, message).Ok? &&
      Decode(k, Encoding.EncodeAsWritten(k, message).value) == Ok(Trim(message))
  {
    Encoding.EncodeAsWrittenTrims(k, message);
    DecodeEncode(k, Trim(message));
  }

  /** The message [1, 0] goes through the encoder as written and comes back as [1]. */
  lemma TrailingZeroLost(k: nat)
    ensures Encoding.EncodeAsWritten(k, [1, 0]).Ok?
    ensures Decode(k, Encoding.EncodeAsWritten(k, [1, 0]).value) == Ok([1]) != Ok([1, 0])
  {
    var m: seq<byte> := [1, 0];
    assert Trim(m) == [1];
    Encoding.EncodeAsWrittenTrims(k, m);
    DecodeEncodeAsWritten(k, m);
  }

  /** A zero message, which the corrected encoder accepts, makes the encoder as written fail. */
  lemma ZeroMessageRejected(k: nat)
    requires k >= 1
    ensures Encoding.EncodeAsWritten(k, [0]) == Err(NegativeArraySize)
    ensures Decode(k, Encoding.Encode(k, [0]).value) == Ok([0])
  {
    var m: seq<byte> := [0];
    assert Trim(m) == [];
    Encoding.EncodeAsWrittenFails(k, m);
    DecodeEncode(k, m);
  }
  /** The syndromes of a word are those of its trimmed polynomial. */
  lemma SyndromesTrim(k: nat, received: seq<byte>)
    ensures Syndromes(k, Trim(received)) == Syndromes(k, received)
  {
    forall i | 0 <= i < k
      ensures Syndromes(k, Trim(received))[i] == Syndromes(k, received)[i]
    {
      var x := GaloisField.Exp(i + 1);
      SyndromeAt(k, Trim(received), i, x);
      SyndromeAt(k, received, i, x);
      EvalTrim(received, x);
    }
  }

  /** The decoder as evidently intended: the errors are located from the same syndromes, but the
      correction is applied to the received word itself rather than to its trimmed polynomial, so
      every error position of the word is an index of the array the magnitudes go into. */
  function DecodeUntrimmed(k: nat, received: seq<byte>): (r: Result<seq<byte>>)
    ensures r.Ok? ==> k < |received| && |r.value| == |received| - k
  {
    if |received| <= k then Err(InvalidInput)
    else
      var synd := Syndromes(k, received);
      if AllZero(synd) then Ok(ExtractMessage(k, received))
      else
        match Correct(k, received, ErrorPositions(Locator(synd)), synd)
        case Err(e) => Err(e)
        case Ok(c) => Ok(ExtractMessage(k, c))
  }

  /** On a word whose last byte is not zero, trimming changes nothing and the two decoders agree. */
  lemma DecodeUntrimmedAgrees(k: nat, received: seq<byte>)
    requires received != [] && received[|received| - 1] != 0
    ensures DecodeUntrimmed(k, received) == Decode(k, received)
  {
    TrimTrimmed(received);
  }

  /** A codeword of the corrected encoder decodes to its message under the corrected decoder. */
  lemma DecodeUntrimmedEncode(k: nat, message: seq<byte>)
    requires message != []
    ensures DecodeUntrimmed(k, Encoding.Encode(k, message).value) == Ok(message)
  {
    var c := Encoding.Encode(k, message).value;
    CodewordSyndromes(k, message);
    SyndromesTrim(k, c);
  }
}
