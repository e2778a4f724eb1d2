/**
 * Elliptic-curve records of the script and its curve-membership test.
 * A Curve is a short Weierstrass curve y^2 = x^3 + a*x + b over the
 * integers modulo p; a Point is any pair of integers attached to a curve,
 * on it or not; a Generator is a point together with its claimed order.
 * The constants are the secp256k1 domain parameters of section 2.4.1 of
 * SEC 2 ("Recommended Elliptic Curve Domain Parameters").
 */
module Curves {
  import opened PyInt

  /** The curve y^2 = x^3 + a*x + b (mod p). Nothing checks that p is prime. */
  datatype Curve = Curve(p: int, a: int, b: int)

  /** An integer point; building one does not require it to lie on the curve. */
  datatype Point = Point(curve: Curve, x: int, y: int)

  /** A base point and its (pre-computed, unchecked) order. */
  datatype Generator = Generator(G: Point, n: int)

  /** secp256k1: p = 2^256 - 2^32 - 977, a = 0, b = 7. */
  const BitcoinCurve: Curve := Curve(
    p := 0xFFFFFFFFFFFFFFFFFFFFFFFFFFFFFFFFFFFFFFFFFFFFFFFFFFFFFFFEFFFFFC2F,
    a := 0x0000000000000000000000000000000000000000000000000000000000000000,
    b := 0x0000000000000000000000000000000000000000000000000000000000000007)

  /** The published secp256k1 base point. */
  const G: Point := Point(
    BitcoinCurve,
    x := 0x79BE667EF9DCBBAC55A06295CE870B07029BFCDB2DCE28D959F2815B16F81798,
    y := 0x483ada7726a3c4655da4fbfc0e1108a8fd17b448a68554199c47d08ffb10d4b8)

  /** The base point with the order of the group it generates. */
  const BitcoinGenerator: Generator := Generator(
    G := G,
    n := 0xFFFFFFFFFFFFFFFFFFFFFFFFFFFFFFFEBAAEDCE6AF48A03BBFD25E8CD0364141)

  /**
   * The curve equation read as a congruence of residues:
   * y^2 and x^3 + a*x + b leave the same remainder modulo p.
   */
  ghost predicate SatisfiesCurveEquation(c: Curve, x: int, y: int)
    requires c.p != 0
  {
    (y * y) % c.p == (x * x * x + c.a * x + c.b) % c.p
  }

  /**
   * The membership test for a general curve: (y*y - x*x*x - a*x - b) % p == 0,
   * with Python's `%`, so a zero modulus raises ZeroDivisionError. The
   * result is true exactly when the point satisfies the curve equation.
   */
  function IsOnCurve(pt: Point): (r: Result<bool>)
    ensures r.Raise? <==> pt.curve.p == 0
    ensures r.Raise? ==> r.exc == ZeroDivisionError
    ensures r.Ok? ==> (r.value <==> SatisfiesCurveEquation(pt.curve, pt.x, pt.y))
  {
    var c, x, y := pt.curve, pt.x, pt.y;
    var m := Mod(y * y - x * x * x - c.a * x - c.b, c.p);
    if m.Raise? then Raise(m.exc)
    else
      ModZeroIffDivides(y * y - x * x * x - c.a * x - c.b, c.p);
      CongruentIffDivides(y * y, x * x * x + c.a * x + c.b, c.p);
      Ok(m.value == 0)
  }

  /**
   * The test as the script writes it for secp256k1, with a = 0 and the
   * constant 7 in place of b: (y**2 - x**3 - 7) % p == 0. It is used on the
   * generator and on a pseudo-random point.
   */
  function Secp256k1Test(p: int, x: int, y: int): (r: Result<bool>)
    ensures r.Raise? <==> p == 0
    ensures r.Raise? ==> r.exc == ZeroDivisionError
    ensures r.Ok? ==> (r.value <==> SatisfiesCurveEquation(Curve(p, 0, 7), x, y))
  {
    var m := Mod(y * y - x * x * x - 7, p);
    if m.Raise? then Raise(m.exc)
    else
      ModZeroIffDivides(y * y - x * x * x - 7, p);
      CongruentIffDivides(y * y, x * x * x + 7, p);
      Ok(m.value == 0)
  }

  /** On any curve with a = 0 and b = 7 the hard-coded test is the general one. */
  lemma SpecialisedTestIsGeneralTest(c: Curve, x: int, y: int)
    requires c.a == 0 && c.b == 7
    ensures Secp256k1Test(c.p, x, y) == IsOnCurve(Point(c, x, y))
  {
  }

  /**
   * Membership depends only on residues modulo p: replacing x, y, a or b by
   * congruent values does not change the outcome of the test.
   */
  lemma {:induction false} MembershipDependsOnlyOnResidues(pt: Point, pt': Point)
    requires pt.curve.p != 0 && pt'.curve.p == pt.curve.p
    requires pt.x % pt.curve.p == pt'.x % pt.curve.p
    requires pt.y % pt.curve.p == pt'.y % pt.curve.p
    requires pt.curve.a % pt.curve.p == pt'.curve.a % pt.curve.p
    requires pt.curve.b % pt.curve.p == pt'.curve.b % pt.curve.p
    ensures IsOnCurve(pt) == IsOnCurve(pt')
  {
    var p := pt.curve.p;
    var x, y, a, b := pt.x, pt.y, pt.curve.a, pt.curve.b;
    var x', y', a', b' := pt'.x, pt'.y, pt'.curve.a, pt'.curve.b;
    MulCongruent(y, y', y, y', p);
    MulCongruent(x, x', x, x', p);
    MulCongruent(x * x, x' * x', x, x', p);
    MulCongruent(a, a', x, x', p);
    AddCongruent(x * x * x, x' * x' * x', a * x, a' * x', p);
    AddCongruent(x * x * x + a * x, x' * x' * x' + a' * x', b, b', p);
  }

  /** Coordinates need not be reduced: a point tests like its reduction mod p. */
  lemma ReducedPointTestsAlike(pt: Point)
    requires pt.curve.p > 0
    ensures IsOnCurve(pt) == IsOnCurve(Point(pt.curve, pt.x % pt.curve.p, pt.y % pt.curve.p))
  {
    var p := pt.curve.p;
    ModUnique(p, 0, pt.x % p);
    ModUnique(p, 0, pt.y % p);
    MembershipDependsOnlyOnResidues(pt, Point(pt.curve, pt.x % p, pt.y % p));
  }

  /** The published generator lies on secp256k1, by either form of the test. */
  lemma GeneratorIsOnCurve()
    ensures Secp256k1Test(BitcoinCurve.p, G.x, G.y) == Ok(true)
    ensures IsOnCurve(G) == Ok(true)
    ensures SatisfiesCurveEquation(BitcoinCurve, G.x, G.y)
  {
  }

  /** The SEC 2 parameters are reduced: 0 <= Gx, Gy < p, and 1 < n < p. */
  lemma GeneratorParametersInRange()
    ensures 0 <= G.x < BitcoinCurve.p && 0 <= G.y < BitcoinCurve.p
    ensures 1 < BitcoinGenerator.n < BitcoinCurve.p
    ensures G.curve == BitcoinCurve && BitcoinGenerator.G == G
  {
  }

  /**
   * The constants are the SEC 2 parameters in their published forms:
   * p = 2^256 - 2^32 - 977, a = 0, b = 7; p and n are 256-bit numbers; and
   * the compressed encoding of G, which begins 02, says that Gy is even.
   */
  lemma Secp256k1ParametersAsPublished()
    ensures BitcoinCurve.p == Pow256(32) - Pow256(4) - 977
    ensures BitcoinCurve.a == 0 && BitcoinCurve.b == 7
    ensures Pow256(31) <= BitcoinGenerator.n < BitcoinCurve.p < Pow256(32)
    ensures G.y % 2 == 0
  {
    Pow256Values();
  }

  /** Membership is not a type guarantee: the point (0, 0) is a Point but is off the curve. */
  lemma OriginIsNotOnCurve()
    ensures IsOnCurve(Point(BitcoinCurve, 0, 0)) == Ok(false)
  {
  }

  /** The smallest modulus: on y^2 = x^3 + 1 (mod 2), the point (1, 0) passes. */
  lemma SmallestModulusExample()
    ensures IsOnCurve(Point(Curve(2, 0, 1), 1, 0)) == Ok(true)
  {
  }

  /** A zero modulus is a fatal ZeroDivisionError, not a silent answer. */
  lemma ZeroModulusRaises(x: int, y: int, a: int, b: int)
    ensures IsOnCurve(Point(Curve(0, a, b), x, y)) == Raise(ZeroDivisionError)
    ensures Secp256k1Test(0, x, y) == Raise(ZeroDivisionError)
  {
  }
}
