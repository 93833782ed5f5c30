/**
 Square roots of u/v modulo p, the mathematics behind decoding a point (section 5.1.3 of RFC 8032):
 the candidate u v^3 (u v^7)^((p-5)/8), or that times a root of -1, is a root whenever there is one.
 */
module SquareRoots {
  import opened Field25519
  import opened FieldChains
  import opened EdwardsLaw
  import opened Groups

  /** curve25519 square root of -1. */
  const SQRT_OF_MINUS1: int := 0x2b83_2480_4fc1_df0b_2b4d_0099_3dfb_d7a7_2f43_1806_ad2f_e478_c4ee_1b27_4a0e_a0b0

  /** (p - 5) / 8 = 2^252 - 3. */
  const ROOT_EXPONENT: nat := 0xffffffffffffffffffffffffffffffffffffffffffffffffffffffffffffffd

  /** x^2 v = u. */
  predicate IsRoot(x: int, u: int, v: int) {
    FMul(FMul(x, x), v) == u
  }

  /** v^3. */
  function Cube(v: int): int {
    FMul(FMul(v, v), v)
  }

  /** u v^7. */
  function Seventh(u: int, v: int): (r: int)
    ensures 0 <= r < P
  {
    FMul(FMul(FMul(Cube(v), Cube(v)), v), u)
  }

  /** u v^3 (u v^7)^((p-5)/8). */
  function Candidate(u: int, v: int): (r: int)
    ensures 0 <= r < P
  {
    FMul(FMul(FPow(Seventh(u, v), ROOT_EXPONENT), Cube(v)), u)
  }

  /** The candidate's square times v is u (u v^7)^((p-1)/4). */
  lemma CandidateSquared(u: int, v: int)
    ensures var r := Candidate(u, v);
      FMul(FMul(r, r), v) == FMul(u, FPow(Seventh(u, v), 2 * ROOT_EXPONENT + 1))
  {
    hide FMul;
    var w, d := Seventh(u, v), Cube(v);
    var c := FPow(w, ROOT_EXPONENT);
    FPowAdd(w, ROOT_EXPONENT, ROOT_EXPONENT);
    FPowAdd(w, 2 * ROOT_EXPONENT, 1);
    FPowOne(w);
    hide FPow;
    hide Cube;
    CandidateAlgebra(u, v, d, c);
  }

  lemma CandidateAlgebra(u: int, v: int, d: int, c: int)
    ensures var r, w := FMul(FMul(c, d), u), FMul(FMul(FMul(d, d), v), u);
      FMul(FMul(r, r), v) == FMul(u, FMul(FMul(c, c), w))
  {
    hide FMul;
    var cc, dd, uu := FMul(c, c), FMul(d, d), FMul(u, u);
    Mul4(FMul(c, d), u, FMul(c, d), u);
    Mul4(c, d, c, d);
    FMulAssoc(cc, dd, uu);
    FMulAssoc(cc, FMul(dd, uu), v);
    MulSwap(dd, uu, v);
    FMulAssoc(FMul(dd, v), u, u);
    FMulAssoc(cc, FMul(FMul(dd, v), u), u);
    FMulCommute(FMul(cc, FMul(FMul(dd, v), u)), u);
  }

  // ---------- when a root exists ----------

  /** Any nonzero square to the power (p-1)/4 is 1 or -1. */
  lemma SquareToQuarter(w: int)
    requires CurveLaws() && 0 < w < P
    ensures FPow(FMul(w, w), 2 * ROOT_EXPONENT + 1) in {1, P - 1}
  {
    hide FMul;
    var n := 2 * ROOT_EXPONENT + 1;
    FPowOne(w);
    FPowAdd(w, 1, 1);
    FPowPow(w, 2, n);
    var h := FPow(w, 2 * n);
    FPowAdd(w, 2 * n, 2 * n);
    assert 2 * n + 2 * n == PMINUS1;
    FermatFor(w);
    hide FPow;
    hide CurveLaws;
    RootsOfOne(h);
  }

  lemma FermatFor(w: int)
    requires CurveLaws() && 0 < w < P
    ensures FPow(w, PMINUS1) == 1
  {
    hide NoZeroDivisors;
    hide Complete;
    hide IsAbelian;
  }

  /** Equal squares are squares of w and -w. */
  lemma SameSquares(x: int, w: int)
    requires CurveLaws() && 0 <= x < P && 0 <= w < P && FMul(x, x) == FMul(w, w)
    ensures w == x || x == FSub(0, w)
  {
    hide CurveLaws;
    hide FMul;
    Dist(x, w, FAdd(x, w));
    DistLeft(x, x, w);
    DistLeft(w, x, w);
    FMulCommute(x, w);
    var a := FAdd(FMul(x, x), FMul(x, w));
    ZeroDifference(a, a);
    assert FAdd(FMul(x, w), FMul(w, w)) == a;
    ZeroDifference(x, w);
    if FSub(x, w) != 0 && FAdd(x, w) != 0 {
      NonzeroProduct(FSub(x, w), FAdd(x, w));
    }
  }

  lemma RootsOfOne(h: int)
    requires CurveLaws() && 0 <= h < P && FMul(h, h) == 1
    ensures h == 1 || h == P - 1
  {
    hide CurveLaws;
    hide FMul;
    FMulOne(1);
    SameSquares(h, 1);
  }

  /** If u = x^2 v for some x, then u v^7 is the square of x v^4. */
  lemma SeventhIsSquare(x: int, u: int, v: int)
    requires IsRoot(x, u, v)
    ensures var s := FMul(x, FMul(Cube(v), v)); Seventh(u, v) == FMul(s, s)
  {
    hide FMul;
    hide Cube;
    var d := Cube(v);
    var dd, xx := FMul(d, d), FMul(x, x);
    Mul4(x, FMul(d, v), x, FMul(d, v));
    Mul4(d, v, d, v);
    Mul4(dd, v, xx, v);
    FMulCommute(dd, xx);
    FMulAssoc(xx, dd, FMul(v, v));
  }

  /** Completeness: when u/v is a square, the candidate's square times v is u or -u. */
  lemma CandidateWorks(x: int, u: int, v: int)
    requires CurveLaws() && 0 <= x < P && 0 <= u < P && 0 <= v < P && IsRoot(x, u, v)
    ensures var r := Candidate(u, v); FMul(FMul(r, r), v) in {u, FSub(0, u)}
  {
    hide CurveLaws;
    hide FMul;
    hide FPow;
    CandidateSquared(u, v);
    hide Candidate;
    var q := FPow(Seventh(u, v), 2 * ROOT_EXPONENT + 1);
    FMulZero(q);
    if u != 0 {
      FMulZero(FMul(x, x));
      FMulZero(x);
      FMulZero(v);
      assert x != 0 && v != 0;
      NonzeroProduct(v, v);
      NonzeroProduct(FMul(v, v), v);
      NonzeroProduct(Cube(v), v);
      NonzeroProduct(x, FMul(Cube(v), v));
      SeventhIsSquare(x, u, v);
      hide Seventh;
      SquareToQuarter(FMul(x, FMul(Cube(v), v)));
      FMulOne(u);
      TimesMinusOne(u);
    }
  }

  lemma TimesMinusOne(u: int)
    requires 0 <= u < P
    ensures FMul(u, P - 1) == FSub(0, u)
  {
    hide FMul;
    assert FSub(0, 1) == P - 1;
    NegProduct(u, 1);
    FMulOne(u);
  }

  // ---------- turning the candidate into a root ----------

  /** Soundness of the second branch: if r^2 v = -u then r sqrt(-1) is a root. */
  lemma TurnedRoot(r: int, u: int, v: int)
    requires 0 <= u < P && FMul(FMul(r, r), v) == FSub(0, u)
    ensures IsRoot(FMul(r, SQRT_OF_MINUS1), u, v)
  {
    hide FMul;
    var i := SQRT_OF_MINUS1;
    MinusOneRoot();
    Mul4(r, i, r, i);
    MulSwap(FMul(r, r), FMul(i, i), v);
    TimesMinusOne(FSub(0, u));
    NegDifference(u, 0);
  }

  lemma MinusOneRoot()
    ensures FMul(SQRT_OF_MINUS1, SQRT_OF_MINUS1) == P - 1
  {
    hide FMul;
    hide Mod;
    FMulIs(SQRT_OF_MINUS1, SQRT_OF_MINUS1);
    ModIs(SQRT_OF_MINUS1 * SQRT_OF_MINUS1,
        0xeca_a2e2_f6a2_302c_cedb_31ac_0572_0688_238c_ed20_78f3_eb0e_c9f2_2e8f_6219_72e4, P - 1);
  }

  lemma NegatedRoot(x: int, u: int, v: int)
    requires IsRoot(x, u, v)
    ensures IsRoot(FSub(0, x), u, v)
  {
    NegSquare(x);
    hide FMul;
  }

  // ---------- the curve equation as a root ----------

  /** y^2 - 1 and d y^2 + 1. */
  function Numerator(y: int): (r: int)
    ensures 0 <= r < P
  {
    FSub(FMul(y, y), 1)
  }

  function Denominator(y: int): (r: int)
    ensures 0 <= r < P
  {
    FAdd(FMul(FMul(y, y), D), 1)
  }

  /** -x^2 + y^2 = 1 + d x^2 y^2 exactly when x^2 (d y^2 + 1) = y^2 - 1. */
  lemma CurveIsRoot(x: int, y: int)
    requires 0 <= x < P && 0 <= y < P
    ensures OnCurve(Point(x, y)) <==> IsRoot(x, Numerator(y), Denominator(y))
  {
    hide FMul;
    var xx, yy := FMul(x, x), FMul(y, y);
    DistLeft(xx, FMul(yy, D), 1);
    FMulOne(xx);
    FMulAssoc(xx, yy, D);
    FMulCommute(FMul(xx, yy), D);
    MovedTerms(xx, yy, Cross(Point(x, y), Point(x, y)));
    assert OnCurve(Point(x, y)) <==> Equation(Point(x, y));
    hide FAdd;
    hide FSub;
  }

  lemma MovedTerms(a: int, b: int, k: int)
    requires 0 <= a < P && 0 <= b < P && 0 <= k < P
    ensures FSub(b, a) == FAdd(1, k) <==> FAdd(k, a) == FSub(b, 1)
  {
    hide Mod;
    ResidueOfSum(b - a, a - 1);
    ResidueOfSum(1 + k, a - 1);
    ResidueOfSum(k + a, 1 - a);
    ResidueOfSum(b - 1, 1 - a);
  }

  /** d y^2 + 1 does not vanish where a point has that y. */
  lemma DenominatorNonzero(x: int, y: int)
    requires 0 <= x < P && 0 <= y < P && OnCurve(Point(x, y))
    ensures Denominator(y) != 0
  {
    hide FMul;
    CurveIsRoot(x, y);
    hide OnCurve;
    FMulZero(FMul(x, x));
    ZeroDifference(FMul(y, y), 1);
    FMulOne(D);
  }

  /** A y fixes x up to sign. */
  lemma RootsAgree(x: int, w: int, y: int)
    requires CurveLaws() && 0 <= x < P && 0 <= w < P && 0 <= y < P
    requires OnCurve(Point(x, y)) && OnCurve(Point(w, y))
    ensures w == x || w == FSub(0, x)
  {
    hide CurveLaws;
    hide FMul;
    CurveIsRoot(x, y);
    CurveIsRoot(w, y);
    DenominatorNonzero(x, y);
    hide OnCurve;
    hide Denominator;
    CancelFactor(FMul(x, x), FMul(w, w), Denominator(y));
    SameSquares(w, x);
  }
}
