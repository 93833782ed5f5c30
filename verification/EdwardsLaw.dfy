/**
 The affine group law of the twisted Edwards curve -x^2 + y^2 = 1 + d x^2 y^2 modulo p
 (section 5.1.4 of RFC 8032), and what the projective forms used by the code stand for.
 Primality of p, Fermat's theorem, completeness and the group laws are hypotheses.
 */
module EdwardsLaw {
  import opened Numbers
  import opened Field25519
  import opened FieldChains
  import opened Groups

  datatype Point = Point(x: int, y: int)

  /** The curve's d, and 2d. */
  const D: int := 0x5203_6cee_2b6f_fe73_8cc7_4079_7779_e898_0070_0a4d_4141_d8ab_75eb_4dca_1359_78a3
  const D2: int := 0x2406_d9dc_56df_fce7_198e_80f2_eef3_d130_00e0_149a_8283_b156_ebd6_9b94_26b2_f159

  /** d x1 x2 y1 y2. */
  function Cross(p: Point, q: Point): (r: int)
    ensures 0 <= r < P
  {
    FMul(D, FMul(FMul(p.x, q.x), FMul(p.y, q.y)))
  }

  /** -x^2 + y^2 = 1 + d x^2 y^2. */
  predicate Equation(p: Point) {
    FSub(FMul(p.y, p.y), FMul(p.x, p.x)) == FAdd(1, Cross(p, p))
  }

  /** Behind a quantifier, so that the equation of a point is unfolded only where a proof names it. */
  predicate OnCurve(p: Point) {
    && 0 <= p.x < P && 0 <= p.y < P
    && forall q :: q == p ==> Equation(q)
  }

  type CurvePoint = p: Point | OnCurve(p) witness Point(0, 1)

  /** a^(p - 2), the inverse of a nonzero residue by Fermat's theorem. */
  function FInv(a: int): (r: int)
    ensures 0 <= r < P
  {
    FPow(a, PMINUS2)
  }

  const PMINUS2: nat := 0x7fffffffffffffffffffffffffffffffffffffffffffffffffffffffffffffeb

  /** x1 y2 + x2 y1 and y1 y2 + x1 x2. */
  function XNumerator(p: Point, q: Point): (r: int)
    ensures 0 <= r < P
  {
    FAdd(FMul(p.x, q.y), FMul(q.x, p.y))
  }

  function YNumerator(p: Point, q: Point): (r: int)
    ensures 0 <= r < P
  {
    FAdd(FMul(p.y, q.y), FMul(p.x, q.x))
  }

  /** Both quotients of the addition law. */
  function RawAdd(p: Point, q: Point): Point {
    Point(FMul(XNumerator(p, q), FInv(FAdd(1, Cross(p, q)))), FMul(YNumerator(p, q), FInv(FSub(1, Cross(p, q)))))
  }

  function EAdd(p: CurvePoint, q: CurvePoint): CurvePoint {
    var r := RawAdd(p, q);
    if OnCurve(r) then r else Point(0, 1)
  }

  function ENeg(p: CurvePoint): CurvePoint {
    NegOnCurve(p);
    Point(FSub(0, p.x), p.y)
  }

  lemma NegOnCurve(p: CurvePoint)
    ensures OnCurve(Point(FSub(0, p.x), p.y))
  {
    NegSquare(p.x);
    assert Equation(p);
  }

  lemma NegSquare(x: int)
    ensures FMul(FSub(0, x), FSub(0, x)) == FMul(x, x)
  {
    NegDifference(FMul(x, x), 0);
    NegProduct(FSub(0, x), x);
    FMulCommute(FSub(0, x), x);
    NegProduct(x, x);
    hide FMul;
  }

  lemma NegDifference(x: int, y: int)
    ensures FSub(y, FSub(0, x)) == FAdd(y, x) && FAdd(y, FSub(0, x)) == FSub(y, x)
  {
    hide Mod;
    var k := Split(0 - x);
    SameResidue(y - Mod(0 - x), y + x, k);
    SameResidue(y + Mod(0 - x), y - x, -k);
  }

  lemma NegProduct(t: int, n: int)
    ensures FMul(t, FSub(0, n)) == FSub(0, FMul(t, n))
  {
    DistLeft(t, 0, n);
    FMulZero(t);
    hide FMul;
  }

  /** q or -q. */
  ghost function Signed(q: CurvePoint, negative: bool): CurvePoint {
    if negative then ENeg(q) else q
  }

  function EdwardsGroup(): Group<CurvePoint> {
    var zero: CurvePoint := Point(0, 1);
    Group<CurvePoint>.Group(zero, EAdd, ENeg)
  }

  // ---------- hypotheses ----------

  /** p is prime: no zero divisors. */
  ghost predicate NoZeroDivisors() {
    forall a, b :: ProductNonzero(a, b)
  }

  ghost predicate ProductNonzero(a: int, b: int) {
    0 < a < P && 0 < b < P ==> FMul(a, b) != 0
  }

  /** The denominators of the law never vanish, and the law stays on the curve. */
  ghost predicate Complete() {
    forall p: CurvePoint, q: CurvePoint :: CompleteAt(p, q)
  }

  ghost predicate CompleteAt(p: CurvePoint, q: CurvePoint) {
    FAdd(1, Cross(p, q)) != 0 && FSub(1, Cross(p, q)) != 0 && OnCurve(RawAdd(p, q))
  }

  ghost predicate CurveLaws() {
    NoZeroDivisors() && Fermat() && Complete() && IsAbelian(EdwardsGroup())
  }

  lemma NonzeroProduct(a: int, b: int)
    requires CurveLaws() && 0 < a < P && 0 < b < P
    ensures FMul(a, b) != 0
  {
    hide Fermat;
    hide Complete;
    hide IsAbelian;
    assert ProductNonzero(a, b);
  }

  /** A common nonzero factor can be cancelled. */
  lemma CancelFactor(a: int, b: int, c: int)
    requires CurveLaws() && 0 <= a < P && 0 <= b < P && 0 < c < P && FMul(a, c) == FMul(b, c)
    ensures a == b
  {
    hide CurveLaws;
    hide FMul;
    Dist(a, b, c);
    ZeroDifference(a, b);
    if FSub(a, b) != 0 {
      NonzeroProduct(FSub(a, b), c);
    }
  }

  lemma ZeroDifference(t: int, u: int)
    requires 0 <= t < P && 0 <= u < P
    ensures FSub(t, u) == 0 <==> t == u
    ensures FAdd(t, u) == 0 <==> t == FSub(0, u)
  {
    ZeroSum(t, u);
    hide Mod;
    var i := Split(t - u);
  }

  lemma ZeroSum(t: int, u: int)
    requires 0 <= t < P && 0 <= u < P
    ensures FAdd(t, u) == 0 <==> t == FSub(0, u)
  {
    hide Mod;
    var j := Split(t + u);
    var k := Split(0 - u);
  }

  /** A quotient times its denominator is its numerator. */
  lemma Quotient(n: int, d: int)
    requires CurveLaws() && 0 <= n < P && 0 < d < P
    ensures FMul(FMul(n, FInv(d)), d) == n
  {
    hide NoZeroDivisors;
    hide Complete;
    hide IsAbelian;
    FPowStep(d);
    hide FPow;
    hide FMul;
    FMulAssoc(n, FInv(d), d);
    FMulOne(n);
  }

  lemma FPowStep(a: int)
    ensures FPow(a, PMINUS1) == FMul(FPow(a, PMINUS2), a)
  {
    hide FMul;
  }

  /** The two cross-multiplied equations that define the sum. */
  lemma SumEquations(p: CurvePoint, q: CurvePoint)
    requires CurveLaws()
    ensures var s := EAdd(p, q);
      && FMul(s.x, FAdd(1, Cross(p, q))) == XNumerator(p, q)
      && FMul(s.y, FSub(1, Cross(p, q))) == YNumerator(p, q)
      && FAdd(1, Cross(p, q)) != 0 && FSub(1, Cross(p, q)) != 0
  {
    Denominators(p, q);
    hide CurveLaws;
    hide OnCurve;
    hide Cross;
    hide XNumerator;
    hide YNumerator;
    Quotient(XNumerator(p, q), FAdd(1, Cross(p, q)));
    Quotient(YNumerator(p, q), FSub(1, Cross(p, q)));
  }

  lemma Denominators(p: CurvePoint, q: CurvePoint)
    requires CurveLaws()
    ensures FAdd(1, Cross(p, q)) != 0 && FSub(1, Cross(p, q)) != 0 && EAdd(p, q) == RawAdd(p, q)
  {
    hide NoZeroDivisors;
    hide Fermat;
    hide IsAbelian;
    assert CompleteAt(p, q);
  }

  // ---------- projective forms ----------

  /** Four residues: a ge25519 or a ge25519_p1p1. */
  datatype Coords = Coords(x: int, y: int, z: int, t: int)

  /** A precomputed point: y - x, x + y, 2dxy. */
  datatype NielsRes = NielsRes(ysubx: int, xaddy: int, t2d: int)

  /** A precomputed point with its own denominator. */
  datatype PNielsRes = PNielsRes(ysubx: int, xaddy: int, z: int, t2d: int)

  /** (X : Y : Z) with x = X/Z, y = Y/Z; nothing is said of T. */
  ghost predicate IsPartial(c: Coords, p: Point) {
    && 0 < c.z < P && c.x == FMul(p.x, c.z) && c.y == FMul(p.y, c.z)
  }

  /** The same with T = xyZ. */
  ghost predicate IsFull(c: Coords, p: Point) {
    IsPartial(c, p) && c.t == FMul(FMul(p.x, p.y), c.z)
  }

  /** x = X/Z, y = Y/T. */
  ghost predicate IsP1P1(c: Coords, p: Point) {
    && 0 < c.z < P && 0 < c.t < P
    && c.x == FMul(p.x, c.z) && c.y == FMul(p.y, c.t)
  }

  /** y - x, y + x and 2kxy. */
  ghost predicate IsScaledNiels(n: NielsRes, p: Point, k: int) {
    && n.ysubx == FSub(p.y, p.x) && n.xaddy == FAdd(p.y, p.x)
    && n.t2d == FMul(FAdd(k, k), FMul(p.x, p.y))
  }

  ghost predicate IsNiels(n: NielsRes, p: Point) {
    IsScaledNiels(n, p, D)
  }

  ghost predicate IsPNiels(n: PNielsRes, p: Point) {
    && 0 < n.z < P
    && n.ysubx == FMul(FSub(p.y, p.x), n.z) && n.xaddy == FMul(FAdd(p.y, p.x), n.z)
    && n.t2d == FMul(FAdd(D, D), FMul(FMul(p.x, p.y), n.z))
  }

  /** In a full representation the extra coordinate is the product of the affine ones: X Y = Z T. */
  lemma FullMeansXYisZT(c: Coords, p: Point)
    requires IsFull(c, p)
    ensures FMul(c.x, c.y) == FMul(c.z, c.t)
  {
    hide FMul;
    Mul4(p.x, c.z, p.y, c.z);
    FMulAssoc(FMul(p.x, p.y), c.z, c.z);
    FMulCommute(c.z, c.t);
  }

  // ---------- the formulas on residues ----------

  /** ge25519_add_p1p1. */
  function SumCoords(p: Coords, q: Coords): Coords {
    var a := FMul(FSub(p.y, p.x), FSub(q.y, q.x));
    var b := FMul(FAdd(p.y, p.x), FAdd(q.y, q.x));
    var c := FMul(FMul(p.t, q.t), D2);
    var z := FMul(p.z, q.z);
    var d := FAdd(z, z);
    Coords(FSub(b, a), FAdd(b, a), FAdd(d, c), FSub(d, c))
  }

  /** ge25519_double_p1p1; T is not read. */
  function DoubleCoords(p: Coords): Coords {
    var a := FMul(p.x, p.x);
    var b := FMul(p.y, p.y);
    var zz := FMul(p.z, p.z);
    var c := FAdd(zz, zz);
    var s := FAdd(p.x, p.y);
    var y := FAdd(b, a);
    var z := FSub(b, a);
    Coords(FSub(FMul(s, s), y), y, z, FSub(c, z))
  }

  /** ge25519_nielsadd2_p1p1; sign 1 subtracts. */
  function NielsSum(p: Coords, q: NielsRes, sign: bool): Coords {
    var a := FMul(FSub(p.y, p.x), if sign then q.xaddy else q.ysubx);
    var b := FMul(FAdd(p.y, p.x), if sign then q.ysubx else q.xaddy);
    var c := FMul(p.t, q.t2d);
    var d := FAdd(p.z, p.z);
    Coords(FSub(b, a), FAdd(b, a), if sign then FSub(d, c) else FAdd(d, c), if sign then FAdd(d, c) else FSub(d, c))
  }

  /** ge25519_pnielsadd_p1p1. */
  function PNielsSum(p: Coords, q: PNielsRes, sign: bool): Coords {
    var a := FMul(FSub(p.y, p.x), if sign then q.xaddy else q.ysubx);
    var b := FMul(FAdd(p.y, p.x), if sign then q.ysubx else q.xaddy);
    var c := FMul(p.t, q.t2d);
    var z := FMul(p.z, q.z);
    var d := FAdd(z, z);
    Coords(FSub(b, a), FAdd(b, a), if sign then FSub(d, c) else FAdd(d, c), if sign then FAdd(d, c) else FSub(d, c))
  }

  /** ge25519_p1p1_to_full. */
  function ToFull(c: Coords): Coords {
    Coords(FMul(c.x, c.t), FMul(c.y, c.z), FMul(c.z, c.t), FMul(c.x, c.y))
  }

  /** ge25519_full_to_pniels. */
  function ToPNiels(c: Coords): PNielsRes {
    PNielsRes(FSub(c.y, c.x), FAdd(c.y, c.x), c.z, FMul(c.t, D2))
  }

  // ---------- what they mean ----------

  lemma ToFullKeepsPoint(c: Coords, p: Point)
    requires CurveLaws() && IsP1P1(c, p)
    ensures IsFull(ToFull(c), p)
  {
    hide CurveLaws;
    hide FMul;
    NonzeroProduct(c.z, c.t);
    FMulAssoc(p.x, c.z, c.t);
    FMulAssoc(p.y, c.t, c.z);
    FMulCommute(c.t, c.z);
    Mul4(p.x, c.z, p.y, c.t);
  }

  /** (y1 + x1)(y2 + x2) -+ (y1 - x1)(y2 - x2) is twice the numerator of the sum's x, or of its y. */
  lemma CrossSum(p: Point, q: Point)
    ensures var u, v := FMul(FSub(p.y, p.x), FSub(q.y, q.x)), FMul(FAdd(p.y, p.x), FAdd(q.y, q.x));
      && FSub(v, u) == FAdd(XNumerator(p, q), XNumerator(p, q))
      && FAdd(v, u) == FAdd(YNumerator(p, q), YNumerator(p, q))
  {
    Dist(p.y, p.x, FSub(q.y, q.x));
    Dist(p.y, p.x, FAdd(q.y, q.x));
    DistLeft(p.y, q.y, q.x);
    DistLeft(p.x, q.y, q.x);
    FMulCommute(q.x, p.y);
    CrossTerms(FMul(p.y, q.y), FMul(p.y, q.x), FMul(p.x, q.y), FMul(p.x, q.x));
    hide FMul;
    hide FSub;
    hide FAdd;
  }

  lemma CrossTerms(a: int, b: int, c: int, d: int)
    requires 0 <= a < P && 0 <= b < P && 0 <= c < P && 0 <= d < P
    ensures var u, v := FSub(FSub(a, b), FSub(c, d)), FAdd(FAdd(a, b), FAdd(c, d));
      FSub(v, u) == FAdd(FAdd(c, b), FAdd(c, b)) && FAdd(v, u) == FAdd(FAdd(a, d), FAdd(a, d))
  {
    hide Mod;
    ResidueOfSum(a + b, c + d);
    ResidueOfSum(a - b, c - d);
    ResidueOfSum(a + b + (c + d), a - b - (c - d));
    ResidueOfSum(c + b, c + b);
    ResidueOfSum(a + d, a + d);
  }

  /**
   The shape shared by the addition formulas: from a = (y1 - x1)(y2 - x2)z, b = (y1 + x1)(y2 + x2)z,
       c = 2z d x1 x2 y1 y2
   and 2z they form (b - a : b + a : 2z + c : 2z - c).
   */
  lemma AdditionShape(p: CurvePoint, q: CurvePoint, z: int, a: int, b: int, c: int)
    requires CurveLaws() && 0 < z < P
    requires a == FMul(FMul(FSub(p.y, p.x), FSub(q.y, q.x)), z)
    requires b == FMul(FMul(FAdd(p.y, p.x), FAdd(q.y, q.x)), z)
    requires c == FMul(Cross(p, q), FAdd(z, z))
    ensures IsP1P1(Coords(FSub(b, a), FAdd(b, a), FAdd(FAdd(z, z), c), FSub(FAdd(z, z), c)), EAdd(p, q))
  {
    hide CurveLaws;
    hide OnCurve;
    hide FMul;
    var s, k, e := EAdd(p, q), Cross(p, q), FAdd(z, z);
    SumEquations(p, q);
    CrossSum(p, q);
    hide Cross;
    hide EAdd;
    hide XNumerator;
    hide YNumerator;
    Dist(FMul(FAdd(p.y, p.x), FAdd(q.y, q.x)), FMul(FSub(p.y, p.x), FSub(q.y, q.x)), z);
    TwiceProduct(XNumerator(p, q), z);
    TwiceProduct(YNumerator(p, q), z);
    Dist(1, k, e);
    FMulOne(e);
    FMulAssoc(s.x, FAdd(1, k), e);
    FMulAssoc(s.y, FSub(1, k), e);
    TwiceNonzero(z);
    NonzeroProduct(FAdd(1, k), e);
    NonzeroProduct(FSub(1, k), e);
  }

  lemma TwiceNonzero(z: int)
    requires 0 < z < P
    ensures FAdd(z, z) != 0
  {
    var k := Split(z + z);
    hide Mod;
  }

  /** (2n) z = n (2z). */
  lemma TwiceProduct(n: int, z: int)
    ensures FMul(FAdd(n, n), z) == FMul(n, FAdd(z, z))
  {
    Dist(n, n, z);
    DistLeft(n, z, z);
  }

  /** 2d = 2 * d, and the two ways the third product of an addition is formed. */
  lemma CrossProduct(p: Point, q: Point, z: int, w: int)
    ensures var t, u := FMul(FMul(p.x, p.y), z), FMul(FMul(q.x, q.y), w);
      var e := FAdd(FMul(z, w), FMul(z, w));
      FMul(FMul(t, u), D2) == FMul(Cross(p, q), e) == FMul(t, FMul(FAdd(D, D), u))
  {
    hide FMul;
    var t, u, m, zw := FMul(FMul(p.x, p.y), z), FMul(FMul(q.x, q.y), w),
                       FMul(FMul(p.x, q.x), FMul(p.y, q.y)), FMul(z, w);
    Mul4(FMul(p.x, p.y), z, FMul(q.x, q.y), w);
    Mul4(p.x, p.y, q.x, q.y);
    assert FMul(t, u) == FMul(m, zw);
    assert FAdd(D, D) == D2;
    FMulAssoc(t, u, D2);
    FMulCommute(u, D2);
    FMulCommute(FMul(m, zw), D2);
    TwiceProduct(D, FMul(m, zw));
    FMulAssoc(D, m, zw);
    Dist(zw, zw, m);
    TwiceD(m, zw);
  }

  lemma TwiceD(m: int, zw: int)
    ensures FMul(D, FAdd(FMul(m, zw), FMul(m, zw))) == FMul(FMul(D, m), FAdd(zw, zw))
  {
    DistLeft(m, zw, zw);
    FMulAssoc(D, m, FAdd(zw, zw));
    hide FMul;
  }

  /** (y - x)z and (y + x)z from the coordinates. */
  lemma SumAndDifference(c: Coords, p: Point)
    requires IsPartial(c, p)
    ensures FSub(c.y, c.x) == FMul(FSub(p.y, p.x), c.z) && FAdd(c.y, c.x) == FMul(FAdd(p.y, p.x), c.z)
  {
    Dist(p.y, p.x, c.z);
    hide FMul;
  }

  /** ge25519_add_p1p1 adds. */
  lemma SumIsSum(c: Coords, e: Coords, p: CurvePoint, q: CurvePoint)
    requires CurveLaws() && IsFull(c, p) && IsFull(e, q)
    ensures IsP1P1(SumCoords(c, e), EAdd(p, q))
  {
    hide CurveLaws;
    hide OnCurve;
    hide Cross;
    hide EAdd;
    hide FMul;
    hide FSub;
    hide FAdd;
    SumAndDifference(c, p);
    SumAndDifference(e, q);
    Mul4(FSub(p.y, p.x), c.z, FSub(q.y, q.x), e.z);
    Mul4(FAdd(p.y, p.x), c.z, FAdd(q.y, q.x), e.z);
    CrossProduct(p, q, c.z, e.z);
    NonzeroProduct(c.z, e.z);
    AdditionShape(p, q, FMul(c.z, e.z), FMul(FSub(c.y, c.x), FSub(e.y, e.x)), FMul(FAdd(c.y, c.x), FAdd(e.y, e.x)),
                  FMul(FMul(c.t, e.t), D2));
  }

  // ---------- precomputed points ----------

  /** -B with y - x and y + x exchanged and 2dxy negated. */
  function NegNiels(n: NielsRes): NielsRes {
    NielsRes(n.xaddy, n.ysubx, FSub(0, n.t2d))
  }

  function NegPNiels(n: PNielsRes): PNielsRes {
    PNielsRes(n.xaddy, n.ysubx, n.z, FSub(0, n.t2d))
  }

  /** -(x) y = -(x y). */
  lemma NegLeft(x: int, y: int)
    ensures FMul(FSub(0, x), y) == FSub(0, FMul(x, y))
  {
    FMulCommute(FSub(0, x), y);
    FMulCommute(x, y);
    NegProduct(y, x);
    hide FMul;
  }

  lemma NegPNielsIsNeg(n: PNielsRes, q: CurvePoint)
    requires IsPNiels(n, q)
    ensures IsPNiels(NegPNiels(n), ENeg(q))
  {
    hide FMul;
    NegDifference(q.x, q.y);
    hide OnCurve;
    NegLeft(q.x, q.y);
    NegLeft(FMul(q.x, q.y), n.z);
    NegProduct(FAdd(D, D), FMul(FMul(q.x, q.y), n.z));
    hide FSub;
    hide FAdd;
  }

  lemma NegNielsIsNeg(n: NielsRes, q: CurvePoint, d: int)
    requires IsScaledNiels(n, q, d)
    ensures IsScaledNiels(NegNiels(n), ENeg(q), d)
  {
    hide FMul;
    NegDifference(q.x, q.y);
    hide OnCurve;
    NegLeft(q.x, q.y);
    NegProduct(FAdd(d, d), FMul(q.x, q.y));
    hide FSub;
    hide FAdd;
  }

  /** Subtracting is adding the negated precomputed point. */
  lemma SignedPNiels(c: Coords, n: PNielsRes)
    ensures PNielsSum(c, n, true) == PNielsSum(c, NegPNiels(n), false)
  {
    NegProduct(c.t, n.t2d);
    var z := FMul(c.z, n.z);
    NegDifference(FMul(c.t, n.t2d), FAdd(z, z));
    hide FMul;
    hide FSub;
    hide FAdd;
  }

  /** ge25519_pnielsadd_p1p1 adds, or subtracts when the sign bit is set. */
  lemma {:induction false} PNielsAdds(c: Coords, n: PNielsRes, p: CurvePoint, q: CurvePoint, sign: bool)
    requires CurveLaws() && IsFull(c, p) && IsPNiels(n, q)
    ensures IsP1P1(PNielsSum(c, n, sign), EAdd(p, Signed(q, sign)))
    decreases sign
  {
    hide CurveLaws;
    hide OnCurve;
    hide Cross;
    hide EAdd;
    hide ENeg;
    hide FMul;
    hide FSub;
    hide FAdd;
    if sign {
      SignedPNiels(c, n);
      NegPNielsIsNeg(n, q);
      hide PNielsSum;
      hide IsP1P1;
      hide IsPNiels;
      PNielsAdds(c, NegPNiels(n), p, ENeg(q), false);
    } else {
      SumAndDifference(c, p);
      Mul4(FSub(p.y, p.x), c.z, FSub(q.y, q.x), n.z);
      Mul4(FAdd(p.y, p.x), c.z, FAdd(q.y, q.x), n.z);
      CrossProduct(p, q, c.z, n.z);
      NonzeroProduct(c.z, n.z);
      AdditionShape(p, q, FMul(c.z, n.z), FMul(FSub(c.y, c.x), n.ysubx), FMul(FAdd(c.y, c.x), n.xaddy),
                    FMul(c.t, n.t2d));
    }
  }

  /** A precomputed point without denominator is one with denominator 1. */
  function WithUnit(n: NielsRes): PNielsRes {
    PNielsRes(n.ysubx, n.xaddy, 1, n.t2d)
  }

  lemma UnitDenominator(n: NielsRes, q: CurvePoint)
    requires IsNiels(n, q)
    ensures IsPNiels(WithUnit(n), q)
  {
    hide OnCurve;
    hide FMul;
    FMulOne(FSub(q.y, q.x));
    FMulOne(FAdd(q.y, q.x));
    FMulOne(FMul(q.x, q.y));
    hide FSub;
    hide FAdd;
  }

  /** ge25519_nielsadd2_p1p1 adds, or subtracts when the sign bit is set. */
  lemma NielsAdds(c: Coords, n: NielsRes, p: CurvePoint, q: CurvePoint, sign: bool)
    requires CurveLaws() && IsFull(c, p) && IsNiels(n, q)
    ensures IsP1P1(NielsSum(c, n, sign), EAdd(p, Signed(q, sign)))
  {
    hide CurveLaws;
    hide OnCurve;
    hide IsNiels;
    hide IsPNiels;
    hide IsP1P1;
    hide EAdd;
    hide Signed;
    hide FMul;
    hide FSub;
    hide FAdd;
    UnitDenominator(n, q);
    FMulOne(c.z);
    PNielsAdds(c, WithUnit(n), p, q, sign);
    assert NielsSum(c, n, sign) == PNielsSum(c, WithUnit(n), sign);
  }

  lemma ToPNielsIs(c: Coords, p: CurvePoint)
    requires IsFull(c, p)
    ensures IsPNiels(ToPNiels(c), p)
  {
    hide OnCurve;
    hide FMul;
    SumAndDifference(c, p);
    assert FAdd(D, D) == D2;
    FMulCommute(c.t, D2);
    hide FSub;
    hide FAdd;
  }

  // ---------- doubling ----------

  /** ge25519_double_p1p1 doubles, reading only X, Y, Z. */
  lemma DoubleIsDouble(c: Coords, p: CurvePoint)
    requires CurveLaws() && IsPartial(c, p)
    ensures IsP1P1(DoubleCoords(c), EAdd(p, p))
  {
    hide CurveLaws;
    hide FMul;
    var s, zz, k := EAdd(p, p), FMul(c.z, c.z), Cross(p, p);
    var n, m := XNumerator(p, p), YNumerator(p, p);
    SumEquations(p, p);
    assert Equation(p);
    DoubleShape(c, p, k);
    hide OnCurve;
    hide Cross;
    hide EAdd;
    hide XNumerator;
    hide YNumerator;
    hide DoubleCoords;
    NonzeroProduct(c.z, c.z);
    FMulAssoc(s.x, FAdd(1, k), zz);
    FMulAssoc(s.y, FSub(1, k), zz);
    NonzeroProduct(FAdd(1, k), zz);
    NonzeroProduct(FSub(1, k), zz);
  }

  /** With z = Z^2: X = 2xyz, Y = (y^2 + x^2)z, Z = (1 + k)z, T = (1 - k)z, where y^2 - x^2 = 1 + k. */
  lemma DoubleShape(c: Coords, p: Point, k: int)
    requires IsPartial(c, p) && 0 <= k < P && FSub(FMul(p.y, p.y), FMul(p.x, p.x)) == FAdd(1, k)
    ensures var d, z := DoubleCoords(c), FMul(c.z, c.z);
      && d.x == FMul(XNumerator(p, p), z) && d.y == FMul(YNumerator(p, p), z)
      && d.z == FMul(FAdd(1, k), z) && d.t == FMul(FSub(1, k), z)
  {
    hide FMul;
    var z, r := FMul(c.z, c.z), FAdd(p.x, p.y);
    Mul4(p.x, c.z, p.x, c.z);
    Mul4(p.y, c.z, p.y, c.z);
    Dist(p.x, p.y, c.z);
    Mul4(r, c.z, r, c.z);
    Dist(FMul(p.y, p.y), FMul(p.x, p.x), z);
    SquareOfSum(p.x, p.y);
    Dist(FMul(r, r), YNumerator(p, p), z);
    Dist(1, 1, z);
    FMulOne(z);
    Dist(FAdd(1, 1), FAdd(1, k), z);
    assert FSub(FAdd(1, 1), FAdd(1, k)) == FSub(1, k);
    hide FAdd;
    hide FSub;
  }

  /** (x + y)^2 - (y^2 + x^2) = xy + xy. */
  lemma SquareOfSum(x: int, y: int)
    ensures FSub(FMul(FAdd(x, y), FAdd(x, y)), FAdd(FMul(y, y), FMul(x, x))) == FAdd(FMul(x, y), FMul(x, y))
  {
    Dist(x, y, FAdd(x, y));
    DistLeft(x, x, y);
    DistLeft(y, x, y);
    FMulCommute(x, y);
    SquareTerms(FMul(x, x), FMul(x, y), FMul(y, y));
    hide FMul;
    hide FAdd;
    hide FSub;
  }

  lemma SquareTerms(a: int, b: int, c: int)
    ensures FSub(FAdd(FAdd(a, b), FAdd(b, c)), FAdd(c, a)) == FAdd(b, b)
  {
    hide Mod;
    ResidueOfSum(a + b, b + c);
    ResidueOfSum(a + b + (b + c), c + a);
  }
}
