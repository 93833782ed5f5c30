/**
 The Lopez-Dahab ladder (ec2_mult.cpp) and the affine routines it is measured against (ec2_smpl.cpp), on numbers
 overwritten in place. After every bit (x1 : z1) and (x2 : z2) are the x-coordinates of kP and (k + 1)P.
 */
module BinaryLadder {
  import opened Numbers
  import opened BinaryField
  import opened BinaryCurve

  /** A BIGNUM holding a field element. */
  class Num<F> {
    var v: F

    constructor (v: F)
      ensures this.v == v
    {
      this.v := v;
    }
  }

  /** EC_POINT. */
  class EcPoint<F(==)> {
    const X: Num<F>
    const Y: Num<F>
    const Z: Num<F>
    var zIsOne: bool

    constructor (x: F, y: F, z: F, zIsOne: bool)
      ensures Shape() && fresh(X) && fresh(Y) && fresh(Z)
      ensures X.v == x && Y.v == y && Z.v == z && this.zIsOne == zIsOne
    {
      X := new Num(x);
      Y := new Num(y);
      Z := new Num(z);
      this.zIsOne := zIsOne;
    }

    ghost predicate Shape() {
      X != Y && X != Z && Y != Z
    }

    /** The flag is set only when Z is one. */
    predicate Flagged(f: Field<F>)
      reads this, Z
    {
      zIsOne ==> Z.v == f.one
    }

    function Value(f: Field<F>): Point<F>
      reads X, Y, Z
    {
      if Z.v == f.zero then Infinity else Affine(X.v, Y.v)
    }

    /** EC_POINT_set_to_infinity. */
    method SetToInfinity(f: Field<F>)
      modifies this`zIsOne, Z
      ensures Z.v == f.zero && !zIsOne
    {
      zIsOne := false;
      Z.v := f.zero;
    }

    /** EC_POINT_set_affine_coordinates. */
    method SetAffine(f: Field<F>, x: F, y: F)
      requires Shape()
      modifies this`zIsOne, X, Y, Z
      ensures X.v == x && Y.v == y && Z.v == f.one && zIsOne
    {
      X.v := x;
      Y.v := y;
      Z.v := f.one;
      zIsOne := true;
    }

    /** EC_POINT_copy. */
    method CopyFrom(src: EcPoint<F>)
      requires Shape() && src.Shape() && (src == this || ({X, Y, Z} !! {src.X, src.Y, src.Z}))
      modifies this`zIsOne, X, Y, Z
      ensures X.v == old(src.X.v) && Y.v == old(src.Y.v) && Z.v == old(src.Z.v) && zIsOne == old(src.zIsOne)
    {
      X.v := src.X.v;
      Y.v := src.Y.v;
      Z.v := src.Z.v;
      zIsOne := src.zIsOne;
    }
  }

  // ---------- the affine routines ----------

  /** ec_GF2m_simple_add; the result may overwrite either operand. Coordinates with Z neither 0 nor 1 are refused. */
  method SimpleAdd<F(==,!new)>(c: Curve<F>, r: EcPoint<F>, a: EcPoint<F>, b: EcPoint<F>) returns (ok: bool)
    requires IsField(c.f) && r.Shape() && a.Shape() && b.Shape() && a.Flagged(c.f) && b.Flagged(c.f)
    requires r == a || {r.X, r.Y, r.Z} !! {a.X, a.Y, a.Z}
    requires r == b || {r.X, r.Y, r.Z} !! {b.X, b.Y, b.Z}
    modifies r`zIsOne, r.X, r.Y, r.Z
    ensures ok <==> old(a.Z.v == c.f.zero || b.Z.v == c.f.zero || (a.Z.v == c.f.one && b.Z.v == c.f.one))
    ensures ok ==> r.Value(c.f) == Add(c, old(a.Value(c.f)), old(b.Value(c.f))) && r.Flagged(c.f)
  {
    hide IsField;
    var f := c.f;
    MulOne(f, f.one);
    if a.Z.v == f.zero {
      r.CopyFrom(b);
      return true;
    }
    if b.Z.v == f.zero {
      r.CopyFrom(a);
      return true;
    }
    if a.Z.v != f.one || b.Z.v != f.one {
      return false;
    }
    var x0, y0, x1, y1 := a.X.v, a.Y.v, b.X.v, b.Y.v;
    var s, x2;
    if x0 != x1 {
      var t := f.add(x0, x1);
      s := f.add(y0, y1);
      s := f.Div(s, t);
      x2 := f.mul(s, s);
      x2 := f.add(x2, c.a);
      x2 := f.add(x2, s);
      x2 := f.add(x2, t);
    } else {
      if y0 != y1 || x1 == f.zero {
        r.SetToInfinity(f);
        return true;
      }
      s := f.Div(y1, x1);
      s := f.add(s, x1);
      x2 := f.mul(s, s);
      x2 := f.add(x2, s);
      x2 := f.add(x2, c.a);
      SlopeOrder(f, f.Sq(s), s, c.a);
    }
    var y2 := f.add(x1, x2);
    y2 := f.mul(y2, s);
    y2 := f.add(y2, x2);
    y2 := f.add(y2, y1);
    r.SetAffine(f, x2, y2);
    ok := true;
  }

  lemma SlopeOrder<F(!new)>(f: Field<F>, ss: F, s: F, a: F)
    requires IsField(f)
    ensures f.add(f.add(ss, s), a) == f.Add4(ss, a, s, f.zero)
  {
    hide MulLaws;
    SameBits(f, f.add(f.add(ss, s), a), f.Add4(ss, a, s, f.zero));
  }

  /** ec_GF2m_simple_is_on_curve: ((x + a)x + y)x + b + y^2 is zero exactly on the curve. */
  method IsOnCurve<F(==,!new)>(c: Curve<F>, p: EcPoint<F>) returns (ret: int)
    requires IsField(c.f)
    ensures ret == -1 <==> p.Z.v != c.f.zero && !p.zIsOne
    ensures ret != -1 ==> ret == if OnCurve(c, p.Value(c.f)) then 1 else 0
  {
    hide IsField;
    var f := c.f;
    if p.Z.v == f.zero {
      return 1;
    }
    if !p.zIsOne {
      return -1;
    }
    var lh := f.add(p.X.v, c.a);
    lh := f.mul(lh, p.X.v);
    lh := f.add(lh, p.Y.v);
    lh := f.mul(lh, p.X.v);
    lh := f.add(lh, c.b);
    var y2 := f.mul(p.Y.v, p.Y.v);
    lh := f.add(lh, y2);
    HornerForm(c, p.X.v, p.Y.v);
    ret := if lh == f.zero then 1 else 0;
  }

  lemma HornerForm<F(!new)>(c: Curve<F>, x: F, y: F)
    requires IsField(c.f)
    ensures var f := c.f;
      f.add(f.add(f.mul(f.add(f.mul(f.add(x, c.a), x), y), x), c.b), f.Sq(y)) == f.zero <==> OnCurve(c, Affine(x, y))
  {
    hide IsField;
    var f, xx := c.f, c.f.Sq(x);
    Dist(f, x, c.a, x);
    Dist(f, f.add(xx, f.mul(c.a, x)), y, x);
    Dist(f, xx, f.mul(c.a, x), x);
    MulAssoc(f, c.a, x, x);
    MulCommute(f, x, y);
    var l, r := f.add(f.Sq(y), f.mul(x, y)), f.Add3(f.mul(xx, x), f.mul(c.a, xx), c.b);
    AddIsZero(f, l, r);
    HornerSum(f, f.mul(xx, x), f.mul(c.a, xx), f.mul(x, y), c.b, f.Sq(y));
  }

  lemma HornerSum<F(!new)>(f: Field<F>, x3: F, ax2: F, xy: F, b: F, yy: F)
    requires IsField(f)
    ensures f.add(f.add(f.add(f.add(x3, ax2), xy), b), yy) == f.add(f.add(yy, xy), f.Add3(x3, ax2, b))
  {
    hide MulLaws;
    SameBits(f, f.add(f.add(f.add(f.add(x3, ax2), xy), b), yy), f.add(f.add(yy, xy), f.Add3(x3, ax2, b)));
  }

  /** ec_GF2m_simple_invert for points in affine form: exact unless Y = 0 and X is not. */
  method Invert<F(==,!new)>(c: Curve<F>, p: EcPoint<F>)
    requires IsField(c.f) && p.Shape() && (p.Z.v == c.f.zero || p.zIsOne) && p.Flagged(c.f)
    modifies p.Y
    ensures p.Value(c.f) == Neg(c, old(p.Value(c.f)))
            <==> !old(p.Z.v != c.f.zero && p.Y.v == c.f.zero && p.X.v != c.f.zero)
  {
    hide IsField;
    if p.Z.v == c.f.zero || p.Y.v == c.f.zero {
      AddZero(c.f, p.X.v);
      return;
    }
    p.Y.v := c.f.add(p.X.v, p.Y.v);
  }

  /** On y^2 + xy = x^3 + 1 the point (1, 0) is not its own inverse, though the routine leaves it alone. */
  lemma InvertLeavesOneZero<F(!new)>(f: Field<F>)
    requires IsField(f)
    ensures var c, p := Curve(f, f.zero, f.one), Affine(f.one, f.zero);
      OnCurve(c, p) && Neg(c, p) != p && Add(c, p, p) != Infinity
  {
    hide IsField;
    MulOne(f, f.one);
    MulZero(f, f.one);
    MulZero(f, f.zero);
    AddZero(f, f.one);
    AddZero(f, f.zero);
  }

  // ---------- projective x-coordinates ----------

  /** (X : Z) stands for x(q): Z = 0 and X not at infinity, X = x Z otherwise. */
  ghost predicate IsX<F(!new)>(c: Curve<F>, x: F, z: F, q: Point<F>) {
    if q.Infinity? then z == c.f.zero && x != c.f.zero
    else z != c.f.zero && x == c.f.mul(q.x, z)
  }

  /** gf2m_Mdouble. */
  method Mdouble<F(==,!new)>(c: Curve<F>, x: Num<F>, z: Num<F>, ghost q: Point<F>)
    requires GroupLaws(c) && x != z && OnCurve(c, q) && IsX(c, x.v, z.v, q)
    modifies x, z
    ensures IsX(c, x.v, z.v, Add(c, q, q))
  {
    hide GroupLaws;
    hide OnCurve;
    hide IsX;
    DoubleX(c, x.v, z.v, q);
    x.v := c.f.mul(x.v, x.v);
    var t1 := c.f.mul(z.v, z.v);
    z.v := c.f.mul(x.v, t1);
    x.v := c.f.mul(x.v, x.v);
    t1 := c.f.mul(t1, t1);
    t1 := c.f.mul(c.b, t1);
    x.v := c.f.add(x.v, t1);
  }

  lemma DoubleX<F(!new)>(c: Curve<F>, x: F, z: F, q: Point<F>)
    requires GroupLaws(c) && OnCurve(c, q) && IsX(c, x, z, q)
    ensures var f := c.f;
      IsX(c, f.add(f.Sq(f.Sq(x)), f.mul(c.b, f.Sq(f.Sq(z)))), f.mul(f.Sq(x), f.Sq(z)), Add(c, q, q))
  {
    FieldOf(c);
    hide GroupLaws;
    hide IsField;
    hide OnCurve;
    var f := c.f;
    var x2, z2 := f.Sq(x), f.Sq(z);
    var x4, z4 := f.Sq(x2), f.Sq(z2);
    NonzeroProduct(f, x, x);
    NonzeroProduct(f, x2, x2);
    NonzeroProduct(f, z, z);
    NonzeroProduct(f, z2, z2);
    NonzeroProduct(f, x2, z2);
    NonzeroProduct(f, c.b, z4);
    AddZero(f, x4);
    AddZero(f, f.mul(c.b, z4));
    if q.Affine? {
      NonzeroProduct(f, q.x, z);
      if q.x != f.zero {
        XOfDouble(c, q);
        DoubleScaled(f, q.x, z, c.b, Add(c, q, q).x);
      }
    }
  }

  lemma DoubleScaled<F(!new)>(f: Field<F>, x: F, z: F, b: F, d: F)
    requires IsField(f) && f.mul(d, f.Sq(x)) == f.add(f.Sq(f.Sq(x)), b)
    ensures var u := f.mul(x, z);
      f.add(f.Sq(f.Sq(u)), f.mul(b, f.Sq(f.Sq(z)))) == f.mul(d, f.mul(f.Sq(u), f.Sq(z)))
  {
    hide IsField;
    var x2, z2 := f.Sq(x), f.Sq(z);
    var z4 := f.Sq(z2);
    Mul4(f, x, z, x, z);
    Mul4(f, x2, z2, x2, z2);
    Dist(f, f.Sq(x2), b, z4);
    MulAssoc(f, x2, z2, z2);
    MulAssoc(f, d, x2, z4);
  }

  /** gf2m_Madd: (x1 : z1) becomes the sum, from the difference point's x. */
  method Madd<F(==,!new)>(c: Curve<F>, x: F, x1: Num<F>, z1: Num<F>, x2: F, z2: F,
      ghost p: Point<F>, ghost p1: Point<F>, ghost p2: Point<F>)
    requires GroupLaws(c) && x1 != z1
    requires OnCurve(c, p) && p.Affine? && p.x == x && OnCurve(c, p1) && OnCurve(c, p2)
    requires IsX(c, x1.v, z1.v, p1) && IsX(c, x2, z2, p2)
    requires p2 == Add(c, p1, p) || p1 == Add(c, p2, p)
    modifies x1, z1
    ensures IsX(c, x1.v, z1.v, Add(c, p1, p2))
  {
    hide GroupLaws;
    hide OnCurve;
    hide IsX;
    hide Add;
    AddX(c, p, p1, p2, x1.v, z1.v, x2, z2);
    var t1 := x;
    x1.v := c.f.mul(x1.v, z2);
    z1.v := c.f.mul(z1.v, x2);
    var t2 := c.f.mul(x1.v, z1.v);
    z1.v := c.f.add(z1.v, x1.v);
    z1.v := c.f.mul(z1.v, z1.v);
    x1.v := c.f.mul(z1.v, t1);
    x1.v := c.f.add(x1.v, t2);
  }

  /** The sum of two points one step of p apart, whichever is the larger. */
  lemma AddX<F(!new)>(c: Curve<F>, p: Point<F>, p1: Point<F>, p2: Point<F>, x1: F, z1: F, x2: F, z2: F)
    requires GroupLaws(c) && OnCurve(c, p) && p.Affine? && OnCurve(c, p1) && OnCurve(c, p2)
    requires IsX(c, x1, z1, p1) && IsX(c, x2, z2, p2)
    requires p2 == Add(c, p1, p) || p1 == Add(c, p2, p)
    ensures var f := c.f; var s, t := f.mul(x1, z2), f.mul(z1, x2);
      IsX(c, f.add(f.mul(f.Sq(f.add(t, s)), p.x), f.mul(s, t)), f.Sq(f.add(t, s)), Add(c, p1, p2))
  {
    FieldOf(c);
    hide GroupLaws;
    hide IsField;
    hide OnCurve;
    hide IsX;
    hide Add;
    var f := c.f;
    MulCommute(f, x1, z2);
    MulCommute(f, z1, x2);
    if p2 == Add(c, p1, p) {
      OrderedAddX(c, p, p1, p2, x1, z1, x2, z2);
    } else {
      OrderedAddX(c, p, p2, p1, x2, z2, x1, z1);
      AddLaws(c, p1, p2, p);
      AddCommute(f, f.mul(x1, z2), f.mul(z1, x2));
      MulCommute(f, f.mul(x1, z2), f.mul(z1, x2));
    }
  }

  /** The difference of the two points is p. */
  lemma DifferenceIs<F(!new)>(c: Curve<F>, p: Point<F>, p1: Point<F>)
    requires GroupLaws(c) && OnCurve(c, p) && OnCurve(c, p1)
    ensures Add(c, Neg(c, p1), Add(c, p1, p)) == p
  {
    FieldOf(c);
    NegOnCurve(c, p1);
    AddNeg(c, p1);
    hide GroupLaws;
    hide OnCurve;
    AddLaws(c, Neg(c, p1), p1, p);
    AddInfinity(c, p);
    hide Add;
  }

  lemma OrderedAddX<F(!new)>(c: Curve<F>, p: Point<F>, p1: Point<F>, p2: Point<F>, x1: F, z1: F, x2: F, z2: F)
    requires GroupLaws(c) && OnCurve(c, p) && p.Affine? && OnCurve(c, p1) && p2 == Add(c, p1, p)
    requires IsX(c, x1, z1, p1) && IsX(c, x2, z2, p2)
    ensures var f := c.f; var s, t := f.mul(x1, z2), f.mul(z1, x2);
      IsX(c, f.add(f.mul(f.Sq(f.add(t, s)), p.x), f.mul(s, t)), f.Sq(f.add(t, s)), Add(c, p1, p2))
  {
    FieldOf(c);
    DifferenceIs(c, p, p1);
    hide GroupLaws;
    hide IsField;
    hide OnCurve;
    var f := c.f;
    var s, t := f.mul(x1, z2), f.mul(z1, x2);
    if p1.Infinity? {
      AtInfinity(f, x1, z2, x2, p.x);
    } else if p2.Infinity? {
      assert p.x == p1.x;
      AtInfinity(f, x2, z1, x1, p.x);
      MulCommute(f, z1, x2);
      MulZero(f, x1);
      AddZero(f, t);
      MulZero(f, t);
    } else if p1.x == p2.x {
      OppositePoints(c, p1, p2, p, z1, z2);
    } else {
      SumFromDifference(c, p1, p2);
      SumScaled(f, p1.x, p2.x, z1, z2, Add(c, p1, p2).x, p.x);
    }
  }

  /** One of the points at infinity: what is left is x(p). */
  lemma AtInfinity<F(!new)>(f: Field<F>, x1: F, z2: F, x2: F, x: F)
    requires IsField(f) && x1 != f.zero && z2 != f.zero
    ensures var s := f.mul(x1, z2);
      && f.mul(f.zero, x2) == f.zero && f.add(f.zero, s) == s == f.add(s, f.zero) && f.Sq(s) != f.zero
      && f.add(f.mul(f.Sq(s), x), f.mul(s, f.zero)) == f.mul(x, f.Sq(s))
  {
    hide IsField;
    var s := f.mul(x1, z2);
    NonzeroProduct(f, x1, z2);
    NonzeroProduct(f, s, s);
    MulZero(f, x2);
    MulZero(f, s);
    AddZero(f, s);
    AddZero(f, f.mul(f.Sq(s), x));
    MulCommute(f, f.Sq(s), x);
  }

  /** Different points with one x are opposite, and their x is not zero. */
  lemma OppositePoints<F(!new)>(c: Curve<F>, p1: Point<F>, p2: Point<F>, p: Point<F>, z1: F, z2: F)
    requires IsField(c.f) && p1.Affine? && p2.Affine? && p1.x == p2.x && p.Affine?
    requires Add(c, Neg(c, p1), p2) == p && z1 != c.f.zero && z2 != c.f.zero
    ensures var f := c.f; var s, t := f.mul(f.mul(p1.x, z1), z2), f.mul(z1, f.mul(p2.x, z2));
      IsX(c, f.add(f.mul(f.Sq(f.add(t, s)), p.x), f.mul(s, t)), f.Sq(f.add(t, s)), Add(c, p1, p2))
  {
    hide IsField;
    var f, x := c.f, p1.x;
    var s, t := f.mul(f.mul(x, z1), z2), f.mul(z1, f.mul(x, z2));
    MulAssoc(f, z1, x, z2);
    MulCommute(f, z1, x);
    assert s == t;
    AddZero(f, s);
    MulZero(f, f.zero);
    MulZero(f, p.x);
    AddZero(f, f.mul(s, s));
    NonzeroProduct(f, x, z1);
    NonzeroProduct(f, f.mul(x, z1), z2);
    NonzeroProduct(f, s, s);
    SameYs(f, x, p1.y);
  }

  lemma SameYs<F(!new)>(f: Field<F>, x: F, y1: F)
    requires IsField(f)
    ensures x != f.zero ==> f.add(x, y1) != y1
  {
    hide IsField;
    AddTwice(f, x, y1);
    AddZero(f, y1);
  }

  /** x(P1 + P2) scaled by the denominators. */
  lemma SumScaled<F(!new)>(f: Field<F>, x1: F, x2: F, z1: F, z2: F, xs: F, xd: F)
    requires IsField(f) && x1 != x2 && z1 != f.zero && z2 != f.zero
    requires var tt := f.Sq(f.add(x1, x2)); f.mul(xs, tt) == f.add(f.mul(xd, tt), f.mul(x1, x2))
    ensures var s, t := f.mul(f.mul(x1, z1), z2), f.mul(z1, f.mul(x2, z2));
      && f.Sq(f.add(t, s)) != f.zero
      && f.add(f.mul(f.Sq(f.add(t, s)), xd), f.mul(s, t)) == f.mul(xs, f.Sq(f.add(t, s)))
  {
    hide IsField;
    var w := f.mul(z1, z2);
    var s, t := f.mul(f.mul(x1, z1), z2), f.mul(z1, f.mul(x2, z2));
    MulAssoc(f, x1, z1, z2);
    MulAssoc(f, z1, x2, z2);
    MulCommute(f, z1, x2);
    MulAssoc(f, x2, z1, z2);
    assert s == f.mul(x1, w) && t == f.mul(x2, w);
    var d := f.add(x1, x2);
    var tt := f.Sq(d);
    AddCommute(f, s, t);
    Dist(f, x1, x2, w);
    Mul4(f, d, w, d, w);
    AddIsZero(f, x1, x2);
    NonzeroProduct(f, z1, z2);
    NonzeroProduct(f, d, w);
    NonzeroProduct(f, f.mul(d, w), f.mul(d, w));
    var ww := f.Sq(w);
    Mul4(f, x1, w, x2, w);
    MulCommute(f, f.mul(tt, ww), xd);
    MulAssoc(f, xd, tt, ww);
    MulAssoc(f, xs, tt, ww);
    Dist(f, f.mul(xd, tt), f.mul(x1, x2), ww);
  }

  // ---------- recovering y ----------

  /** (x1 + x)[(x1 + x)(x2 + x) + x^2 + y] = (y1 + y) x when (x2, .) is (x1, y1) + (x, y). */
  lemma Recover<F(!new)>(c: Curve<F>, p: Point<F>, p1: Point<F>)
    requires IsField(c.f) && OnCurve(c, p) && OnCurve(c, p1) && p.Affine? && p1.Affine? && Add(c, p1, p).Affine?
    ensures var f, x2 := c.f, Add(c, p1, p).x;
      var d := f.add(p1.x, p.x);
      f.mul(d, f.add(f.add(f.Sq(p.x), p.y), f.mul(f.add(x2, p.x), d))) == f.mul(f.add(p1.y, p.y), p.x)
  {
    hide IsField;
    var f, x2 := c.f, Add(c, p1, p).x;
    var d := f.add(p1.x, p.x);
    var k := f.add(f.add(f.Sq(p.x), p.y), f.mul(f.add(x2, p.x), d));
    AddIsZero(f, p1.x, p.x);
    if p1.x == p.x {
      AddZero(f, p.y);
      MulZero(f, k);
      MulZero(f, p.x);
    } else {
      ChordTimesSquare(c, p.x, p.y, p1.x, p1.y);
      hide OnCurve;
      RecoverSum(f, d, p.x, p.y, p1.x, p1.y, f.add(x2, p.x));
    }
  }

  /** (x2 + x)(x1 + x)^2 = x^3 + x1 x^2 + y1 x + y x1, by both curve equations. */
  lemma ChordTimesSquare<F(!new)>(c: Curve<F>, x: F, y: F, x1: F, y1: F)
    requires IsField(c.f) && OnCurve(c, Affine(x, y)) && OnCurve(c, Affine(x1, y1)) && x1 != x
    ensures var f := c.f; var d := f.add(x1, x);
      var s := f.Div(f.add(y1, y), d);
      f.mul(f.add(f.Add4(f.Sq(s), c.a, s, d), x), f.Sq(d))
      == f.Add4(f.mul(f.Sq(x), x), f.mul(x1, f.Sq(x)), f.mul(y1, x), f.mul(y, x1))
  {
    hide IsField;
    var f := c.f;
    var d, n := f.add(x1, x), f.add(y1, y);
    var dd, xx, xx1 := f.Sq(d), f.Sq(x), f.Sq(x1);
    var s := f.Div(n, d);
    AddIsZero(f, x1, x);
    ChordExpand(f, s, c.a, d, x, dd);
    DivMul(f, n, d);
    Mul4(f, s, s, d, d);
    Frobenius(f, y1, y);
    MulAssoc(f, s, d, d);
    Dist(f, y1, y, d);
    Dist(f, x1, x, y1);
    Dist(f, x1, x, y);
    Frobenius(f, x1, x);
    Dist(f, xx1, xx, c.a);
    Dist(f, d, x, dd);
    AddTwice(f, x1, x);
    Dist(f, xx1, xx, x1);
    MulCommute(f, x1, y1);
    MulCommute(f, x, y);
    MulCommute(f, x1, xx1);
    ChordSum(f, f.Sq(y1), f.Sq(y), f.mul(y1, x1), f.mul(y1, x), f.mul(y, x1), f.mul(y, x),
             f.mul(c.a, xx1), f.mul(c.a, xx), f.mul(xx1, x1), f.mul(x1, xx), f.mul(xx, x), c.b);
  }

  lemma ChordExpand<F(!new)>(f: Field<F>, s: F, a: F, d: F, x: F, dd: F)
    requires IsField(f)
    ensures f.mul(f.add(f.Add4(f.Sq(s), a, s, d), x), dd)
            == f.add(f.Add3(f.mul(f.Sq(s), dd), f.mul(a, dd), f.mul(s, dd)), f.mul(f.add(d, x), dd))
  {
    hide MulLaws;
    var e := f.Add3(f.Sq(s), a, s);
    SameBits(f, f.add(f.add(e, d), x), f.add(e, f.add(d, x)));
    hide IsField;
    Dist(f, e, f.add(d, x), dd);
    Dist(f, f.add(f.Sq(s), a), s, dd);
    Dist(f, f.Sq(s), a, dd);
  }

  lemma ChordSum<F(!new)>(f: Field<F>, yy1: F, yy: F, y1x1: F, y1x: F, yx1: F, yx: F,
      axx1: F, axx: F, x1cubed: F, x1xx: F, xcubed: F, b: F)
    requires IsField(f)
    requires f.add(yy1, y1x1) == f.Add3(x1cubed, axx1, b) && f.add(yy, yx) == f.Add3(xcubed, axx, b)
    ensures f.add(f.Add3(f.add(yy1, yy), f.add(axx1, axx), f.add(f.add(y1x1, y1x), f.add(yx1, yx))),
        f.add(x1cubed, x1xx))
            == f.Add4(xcubed, x1xx, y1x, yx1)
  {
    hide MulLaws;
    var l := f.add(f.Add3(f.add(yy1, yy), f.add(axx1, axx), f.add(f.add(y1x1, y1x), f.add(yx1, yx))),
        f.add(x1cubed, x1xx));
    var m := f.add(f.add(f.add(yy1, y1x1), f.add(yy, yx)),
        f.add(f.add(f.add(axx1, axx), f.add(y1x, yx1)), f.add(x1cubed, x1xx)));
    SameBits(f, l, m);
    SameBits(f, m, f.Add4(xcubed, x1xx, y1x, yx1));
  }

  lemma RecoverSum<F(!new)>(f: Field<F>, d: F, x: F, y: F, x1: F, y1: F, g: F)
    requires IsField(f) && d == f.add(x1, x)
    requires f.mul(g, f.Sq(d)) == f.Add4(f.mul(f.Sq(x), x), f.mul(x1, f.Sq(x)), f.mul(y1, x), f.mul(y, x1))
    ensures f.mul(d, f.add(f.add(f.Sq(x), y), f.mul(g, d))) == f.mul(f.add(y1, y), x)
  {
    hide IsField;
    var xx := f.Sq(x);
    Dist(f, f.add(xx, y), f.mul(g, d), d);
    Dist(f, xx, y, d);
    MulAssoc(f, g, d, d);
    MulCommute(f, d, f.mul(g, d));
    Dist(f, x1, x, xx);
    Dist(f, x1, x, y);
    Dist(f, y1, y, x);
    MulCommute(f, x, xx);
    MulCommute(f, x1, y);
    MulCommute(f, x, y);
    FinalSum(f, f.mul(xx, x), f.mul(x1, xx), f.mul(y1, x), f.mul(y, x1), f.mul(y, x));
  }

  lemma FinalSum<F(!new)>(f: Field<F>, x3: F, x1xx: F, y1x: F, yx1: F, yx: F)
    requires IsField(f)
    ensures f.add(f.add(f.add(x1xx, x3), f.add(yx1, yx)), f.Add4(x3, x1xx, y1x, yx1)) == f.add(y1x, yx)
  {
    hide MulLaws;
    SameBits(f, f.add(f.add(f.add(x1xx, x3), f.add(yx1, yx)), f.Add4(x3, x1xx, y1x, yx1)), f.add(y1x, yx));
  }

  /** A point with x = 0 has order two. */
  lemma {:induction false} OrderTwo<F(!new)>(c: Curve<F>, k: nat, p: Point<F>)
    requires p.Affine? && p.x == c.f.zero
    ensures Times(c, k, p) == if k % 2 == 0 then Infinity else p
  {
    if k > 0 {
      OrderTwo(c, k - 1, p);
    }
  }

  lemma NegNeg<F(!new)>(c: Curve<F>, p: Point<F>)
    requires IsField(c.f)
    ensures Neg(c, Neg(c, p)) == p
  {
    hide IsField;
    if p.Affine? {
      AddTwice(c.f, p.y, p.x);
    }
  }

  /** With the next point at infinity, this one is -p. */
  lemma LastBeforeInfinity<F(!new)>(c: Curve<F>, p: Point<F>, p1: Point<F>)
    requires GroupLaws(c) && OnCurve(c, p) && OnCurve(c, p1) && Add(c, p1, p) == Infinity
    ensures p1 == Neg(c, p)
  {
    FieldOf(c);
    DifferenceIs(c, p, p1);
    AddInfinity(c, Neg(c, p1));
    hide GroupLaws;
    hide OnCurve;
    hide Add;
    NegNeg(c, p1);
    hide Neg;
  }

  /** gf2m_Mxy: 1 for the point at infinity, else 2 and the point in (x2, z2); its division is never by zero. */
  method Mxy<F(==,!new)>(c: Curve<F>, x: F, y: F, x1: Num<F>, z1: Num<F>, x2: Num<F>, z2: Num<F>, ghost k: nat)
    returns (ret: int)
    requires GroupLaws(c) && OnCurve(c, Affine(x, y))
    requires x1 != z1 && x1 != x2 && x1 != z2 && z1 != x2 && z1 != z2 && x2 != z2
    requires IsX(c, x1.v, z1.v, Times(c, k, Affine(x, y))) && IsX(c, x2.v, z2.v, Times(c, k + 1, Affine(x, y)))
    modifies x1, z1, x2, z2
    ensures ret == 1 || ret == 2
    ensures ret == 1 ==> Times(c, k, Affine(x, y)) == Infinity
    ensures ret == 2 ==> Times(c, k, Affine(x, y)) == Affine(x2.v, z2.v)
  {
    FieldOf(c);
    hide GroupLaws;
    hide IsField;
    hide OnCurve;
    hide Add;
    var f := c.f;
    ghost var p, p1, p2 := Affine(x, y), Times(c, k, Affine(x, y)), Times(c, k + 1, Affine(x, y));
    TimesOnCurve(c, k, p);
    assert p2 == Add(c, p1, p);
    if z1.v == f.zero {
      x2.v := f.zero;
      z2.v := f.zero;
      return 1;
    }
    if z2.v == f.zero {
      LastBeforeInfinity(c, p, p1);
      x2.v := x;
      z2.v := f.add(x, y);
      return 2;
    }
    NeverByZero(c, k, p);
    ghost var w := f.mul(z1.v, z2.v);
    Recover(c, p, p1);
    MxyTerms(f, x, y, p1.x, p1.y, z1.v, p2.x, z2.v);
    var t5 := f.one;
    var t3 := f.mul(z1.v, z2.v);
    z1.v := f.mul(z1.v, x);
    z1.v := f.add(z1.v, x1.v);
    z2.v := f.mul(z2.v, x);
    x1.v := f.mul(z2.v, x1.v);
    z2.v := f.add(z2.v, x2.v);
    z2.v := f.mul(z2.v, z1.v);
    var t4 := f.mul(x, x);
    t4 := f.add(t4, y);
    t4 := f.mul(t4, t3);
    t4 := f.add(t4, z2.v);
    t3 := f.mul(t3, x);
    assert t3 != f.zero;
    t3 := f.Div(t5, t3);
    t4 := f.mul(t3, t4);
    x2.v := f.mul(x1.v, t3);
    z2.v := f.add(x2.v, x);
    z2.v := f.mul(z2.v, t4);
    z2.v := f.add(z2.v, y);
    ret := 2;
  }

  lemma NeverByZero<F(!new)>(c: Curve<F>, k: nat, p: Point<F>)
    requires p.Affine? && Times(c, k, p).Affine? && Times(c, k + 1, p).Affine?
    ensures p.x != c.f.zero
  {
    hide Add;
    if p.x == c.f.zero {
      OrderTwo(c, k, p);
      OrderTwo(c, k + 1, p);
    }
  }

  /** What the straight line of gf2m_Mxy computes. */
  lemma MxyTerms<F(!new)>(f: Field<F>, x: F, y: F, x1: F, y1: F, z1: F, x2: F, z2: F)
    requires IsField(f) && x != f.zero && z1 != f.zero && z2 != f.zero
    requires var d := f.add(x1, x);
      f.mul(d, f.add(f.add(f.Sq(x), y), f.mul(f.add(x2, x), d))) == f.mul(f.add(y1, y), x)
    ensures var w := f.mul(z1, z2);
      var r := f.Div(f.one, f.mul(w, x));
      var n := f.mul(f.add(f.mul(z2, x), f.mul(x2, z2)), f.add(f.mul(z1, x), f.mul(x1, z1)));
      var t := f.mul(r, f.add(f.mul(f.add(f.Sq(x), y), w), n));
      && f.mul(w, x) != f.zero
      && f.mul(f.mul(f.mul(z2, x), f.mul(x1, z1)), r) == x1
      && f.add(f.mul(f.add(x1, x), t), y) == y1
  {
    hide IsField;
    var w := f.mul(z1, z2);
    var wx := f.mul(w, x);
    var r := f.Div(f.one, wx);
    var e, g, d := f.add(f.Sq(x), y), f.add(x2, x), f.add(x1, x);
    NonzeroProduct(f, z1, z2);
    NonzeroProduct(f, w, x);
    MulCommute(f, z2, x);
    MulCommute(f, z1, x);
    Dist(f, x2, x, z2);
    Dist(f, x1, x, z1);
    AddCommute(f, f.mul(z2, x), f.mul(x2, z2));
    AddCommute(f, f.mul(z1, x), f.mul(x1, z1));
    Mul4(f, g, z2, d, z1);
    MulCommute(f, z2, z1);
    var k := f.add(e, f.mul(g, d));
    Dist(f, e, f.mul(g, d), w);
    Mul4(f, x, z2, x1, z1);
    MulCommute(f, x, x1);
    MulAssoc(f, x1, x, w);
    MulCommute(f, x, w);
    Reciprocal(f, x1, wx);
    RatioIs(f, k, w, x, r);
    Quotients(f, d, k, x, f.add(y1, y));
    AddTwice(f, y1, y);
  }

  /** a c times 1/c is a. */
  lemma Reciprocal<F(!new)>(f: Field<F>, a: F, c: F)
    requires IsField(f) && c != f.zero
    ensures f.mul(f.mul(a, c), f.Div(f.one, c)) == a
  {
    hide IsField;
    MulOne(f, f.inv(c));
    DivMul(f, a, c);
  }

  /** (1 / wx) (k w) = k / x. */
  lemma RatioIs<F(!new)>(f: Field<F>, k: F, w: F, x: F, r: F)
    requires IsField(f) && w != f.zero && x != f.zero && f.mul(w, x) != f.zero && r == f.Div(f.one, f.mul(w, x))
    ensures f.mul(r, f.mul(k, w)) == f.Div(k, x)
  {
    hide IsField;
    var q := f.Div(k, x);
    DivMul(f, k, x);
    MulAssoc(f, q, x, w);
    MulCommute(f, x, w);
    Reciprocal(f, q, f.mul(w, x));
    MulCommute(f, f.mul(k, w), r);
  }

  lemma Quotients<F(!new)>(f: Field<F>, d: F, k: F, x: F, s: F)
    requires IsField(f) && x != f.zero && f.mul(d, k) == f.mul(s, x)
    ensures f.mul(d, f.Div(k, x)) == s
  {
    hide IsField;
    MulAssoc(f, d, k, f.inv(x));
    DivMul(f, s, x);
  }

  // ---------- the ladder ----------

  /** BN_consttime_swap. */
  method SwapIf<F(==)>(condition: bool, a: Num<F>, b: Num<F>)
    requires a != b
    modifies a, b
    ensures a.v == old(if condition then b.v else a.v) && b.v == old(if condition then a.v else b.v)
  {
    if condition {
      a.v, b.v := b.v, a.v;
    }
  }

  /** One bit: from (kP, (k + 1)P) to (2kP, (2k + 1)P) or ((2k + 1)P, (2k + 2)P). */
  method LadderStep<F(==,!new)>(c: Curve<F>, x: F, x1: Num<F>, z1: Num<F>, x2: Num<F>, z2: Num<F>, bit: bool,
      ghost k: nat, ghost p: Point<F>)
    requires GroupLaws(c) && OnCurve(c, p) && p.Affine? && p.x == x
    requires x1 != z1 && x1 != x2 && x1 != z2 && z1 != x2 && z1 != z2 && x2 != z2
    requires IsX(c, x1.v, z1.v, Times(c, k, p)) && IsX(c, x2.v, z2.v, Times(c, k + 1, p))
    modifies x1, z1, x2, z2
    ensures var n := 2 * k + (if bit then 1 else 0);
      IsX(c, x1.v, z1.v, Times(c, n, p)) && IsX(c, x2.v, z2.v, Times(c, n + 1, p))
  {
    hide GroupLaws;
    hide OnCurve;
    hide IsX;
    hide Add;
    ghost var pk, pk1 := Times(c, k, p), Times(c, k + 1, p);
    TimesOnCurve(c, k, p);
    TimesOnCurve(c, k + 1, p);
    assert pk1 == Add(c, pk, p);
    TimesAdd(c, k, k, p);
    TimesAdd(c, k, k + 1, p);
    TimesAdd(c, k + 1, k, p);
    TimesAdd(c, k + 1, k + 1, p);
    hide Times;
    SwapIf(bit, x1, x2);
    SwapIf(bit, z1, z2);
    ghost var low, high := if bit then pk1 else pk, if bit then pk else pk1;
    Madd(c, x, x2, z2, x1.v, z1.v, p, high, low);
    Mdouble(c, x1, z1, low);
    SwapIf(bit, x1, x2);
    SwapIf(bit, z1, z2);
  }

  // ---------- the bits of the scalar ----------

  /** The words of a BIGNUM from position i up. */
  function High(d: seq<u64>, i: nat): (h: nat)
    requires i <= |d|
    decreases |d| - i
  {
    if i == |d| then 0 else d[i] + 0x1_0000_0000_0000_0000 * High(d, i + 1)
  }

  lemma {:induction false} HighIsEval(d: seq<u64>, i: nat)
    requires i <= |d|
    ensures High(d, i) == Eval(0x1_0000_0000_0000_0000, d[i..])
    decreases |d| - i
  {
    if i < |d| {
      HighIsEval(d, i + 1);
      assert d[i..][1..] == d[i + 1..];
    }
  }

  /** `word & mask` for a mask of one bit. */
  lemma {:induction false} MaskBit(w: nat, j: nat)
    ensures And(w, Pow2(j)) != 0 <==> (w / Pow2(j)) % 2 == 1
  {
    BitSteps(w, Pow2(j));
    if j > 0 {
      MaskBit(w / 2, j - 1);
      hide And;
      Halve(w, Pow2(j - 1));
      assert And(w / 2, Pow2(j - 1)) == And(w, Pow2(j)) / 2;
    }
  }

  lemma Halve(x: nat, p: nat)
    requires p > 0
    ensures x / (2 * p) == (x / 2) / p == (x / p) / 2
  {
    var q, r := x / (2 * p), x % (2 * p);
    assert x == p * (2 * q) + r;
    if r < p {
      DivModUnique(x, p, 2 * q, r);
    } else {
      DivModUnique(x, p, 2 * q + 1, r - p);
    }
    DivModUnique(x / 2, p, q, r / 2);
  }

  /** What is above bit j of v; all of v when no bit is left. */
  ghost function Prefix(v: nat, j: int): nat
    requires j >= -1
  {
    if j < 0 then v else Above(v, 2 * Pow2(j))
  }

  /** v with what is below p cut off. */
  ghost function Above(v: nat, p: nat): nat
    requires p > 0
  {
    v / p
  }

  /** The prefix of the scalar grows by the bit under the mask. */
  lemma NextBit(w: nat, h: nat, j: nat)
    requires j < 64
    ensures Prefix(w + 0x1_0000_0000_0000_0000 * h, j - 1)
        == 2 * Prefix(w + 0x1_0000_0000_0000_0000 * h, j) + (if And(w, Pow2(j)) != 0 then 1 else 0)
  {
    MaskBit(w, j);
    hide And;
    Pow2Add(j, 63 - j);
    TopMask();
    BitAbove(w, h, Pow2(j), Pow2(63 - j));
    PrefixAbove(w + 0x1_0000_0000_0000_0000 * h, j);
  }

  lemma PrefixAbove(v: nat, j: nat)
    ensures Prefix(v, j - 1) == v / Pow2(j)
  {
    if j == 0 {
      assert Pow2(0) == 1;
    }
  }

  lemma PrefixDone(v: nat)
    ensures Prefix(v, -1) == v
  {
  }

  /** A whole word above: the prefix at its top bit. */
  lemma PrefixWord(w: u64, h: nat)
    ensures Prefix(w as int + 0x1_0000_0000_0000_0000 * h, 63) == h
  {
    TopMask();
    DivModUnique(w as int + 0x1_0000_0000_0000_0000 * h, 0x1_0000_0000_0000_0000, h, w);
  }

  lemma BitAbove(w: nat, h: nat, p: nat, q: nat)
    requires p > 0 && 2 * (p * q) == 0x1_0000_0000_0000_0000
    ensures var v := w + 0x1_0000_0000_0000_0000 * h; v / p == 2 * (v / (2 * p)) + (w / p) % 2
  {
    var v, a := w + 0x1_0000_0000_0000_0000 * h, q * h;
    Halve(v, p);
    Grouped(p, q, h);
    Stacked(w, p, 2 * a);
    LowBitOf(v / p, w / p, a);
  }

  lemma LowBitOf(y: int, x: int, a: int)
    requires y == x + 2 * a
    ensures y == 2 * (y / 2) + x % 2
  {
  }

  lemma Grouped(p: int, q: int, h: int)
    ensures (2 * (p * q)) * h == p * (2 * (q * h))
  {
  }

  lemma Stacked(w: nat, p: nat, e: nat)
    requires p > 0
    ensures (w + p * e) / p == w / p + e
  {
    assert p * (w / p + e) == p * (w / p) + p * e;
    DivModUnique(w + p * e, p, w / p + e, w % p);
  }

  // ---------- ec_GF2m_montgomery_point_multiply ----------

  /** One past the top bit of a nonzero top word, on the next word if that was its last bit. */
  method FindTop(d: seq<u64>) returns (i: int, mask: nat, ghost j: nat)
    requires |d| > 0 && d[|d| - 1] != 0
    ensures -1 <= i < |d| && j < 64 && mask == Pow2(j)
    ensures if i < 0 then High(d, 0) == 1 else Prefix(High(d, i), j) == 1
  {
    hide And;
    i := |d| - 1;
    Pow2Bytes();
    j := 63;
    assert Pow2(64) == 2 * Pow2(63);
    mask := 0x8000_0000_0000_0000;
    var word := d[i];
    MaskTop(word, j);
    while And(word, mask) == 0
      invariant j < 64 && mask == Pow2(j) && 0 < word < 2 * Pow2(j)
      invariant And(word, mask) == 0 <==> word < Pow2(j)
      decreases j
    {
      assert Pow2(0) == 1;
      mask := mask / 2;
      j := j - 1;
      MaskTop(word, j);
    }
    DivModUnique(word, Pow2(j), 1, word - Pow2(j));
    PrefixAbove(word, j);
    assert High(d, i) == word + 0x1_0000_0000_0000_0000 * High(d, i + 1);
    mask := mask / 2;
    assert mask == 0 <==> j == 0;
    if mask == 0 {
      i := i - 1;
      mask := 0x8000_0000_0000_0000;
      j := 63;
      if i >= 0 {
        PrefixWord(d[i], 1);
      }
    } else {
      j := j - 1;
    }
  }

  lemma MaskTop(w: nat, j: nat)
    requires w < 2 * Pow2(j)
    ensures And(w, Pow2(j)) == 0 <==> w < Pow2(j)
  {
    MaskBit(w, j);
    hide And;
    var p := Pow2(j);
    if w < p {
      DivModUnique(w, p, 0, w);
    } else {
      DivModUnique(w, p, 1, w - p);
    }
  }

  /** The bits of one word. */
  method WordBits<F(==,!new)>(c: Curve<F>, x: F, x1: Num<F>, z1: Num<F>, x2: Num<F>, z2: Num<F>, word: u64, first: nat,
      ghost top: nat, ghost h: nat, ghost p: Point<F>)
    requires GroupLaws(c) && OnCurve(c, p) && p.Affine? && p.x == x && top < 64 && first == Pow2(top)
    requires x1 != z1 && x1 != x2 && x1 != z2 && z1 != x2 && z1 != z2 && x2 != z2
    requires var k := Prefix(word as int + 0x1_0000_0000_0000_0000 * h, top);
      IsX(c, x1.v, z1.v, Times(c, k, p)) && IsX(c, x2.v, z2.v, Times(c, k + 1, p))
    modifies x1, z1, x2, z2
    ensures var k := word as int + 0x1_0000_0000_0000_0000 * h;
      IsX(c, x1.v, z1.v, Times(c, k, p)) && IsX(c, x2.v, z2.v, Times(c, k + 1, p))
  {
    hide GroupLaws;
    hide OnCurve;
    hide IsX;
    hide Add;
    hide Times;
    hide And;
    hide Prefix;
    PrefixDone(word as int + 0x1_0000_0000_0000_0000 * h);
    var mask := first;
    ghost var j: int := top;
    ghost var v := word as int + 0x1_0000_0000_0000_0000 * h;
    ghost var k: nat := Prefix(v, top);
    while mask != 0
      invariant -1 <= j < 64 && mask == (if j < 0 then 0 else Pow2(j))
      invariant k == Prefix(v, j)
      invariant IsX(c, x1.v, z1.v, Times(c, k, p)) && IsX(c, x2.v, z2.v, Times(c, k + 1, p))
      decreases j
    {
      NextBit(word, h, j);
      LadderStep(c, x, x1, z1, x2, z2, And(word, mask) != 0, k, p);
      k := Prefix(v, j - 1);
      mask := mask / 2;
      j := j - 1;
    }
  }

  /** All remaining words. */
  method Ladder<F(==,!new)>(c: Curve<F>, x: F, x1: Num<F>, z1: Num<F>, x2: Num<F>, z2: Num<F>, d: seq<u64>,
      ghost p: Point<F>)
    requires GroupLaws(c) && OnCurve(c, p) && p.Affine? && p.x == x && |d| > 0 && d[|d| - 1] != 0
    requires x1 != z1 && x1 != x2 && x1 != z2 && z1 != x2 && z1 != z2 && x2 != z2
    requires IsX(c, x1.v, z1.v, Times(c, 1, p)) && IsX(c, x2.v, z2.v, Times(c, 2, p))
    modifies x1, z1, x2, z2
    ensures var k := High(d, 0);
      IsX(c, x1.v, z1.v, Times(c, k, p)) && IsX(c, x2.v, z2.v, Times(c, k + 1, p))
  {
    hide GroupLaws;
    hide OnCurve;
    hide IsX;
    hide Add;
    hide Times;
    hide Prefix;
    var i, mask, j := FindTop(d);
    ghost var k: nat := 1;
    while i >= 0
      invariant -1 <= i < |d| && j < 64 && mask == Pow2(j)
      invariant k == if i < 0 then High(d, 0) else Prefix(High(d, i), j)
      invariant IsX(c, x1.v, z1.v, Times(c, k, p)) && IsX(c, x2.v, z2.v, Times(c, k + 1, p))
      decreases i
    {
      assert High(d, i) == d[i] + 0x1_0000_0000_0000_0000 * High(d, i + 1);
      WordBits(c, x, x1, z1, x2, z2, d[i], mask, j, High(d, i + 1), p);
      k := High(d, i);
      i := i - 1;
      mask := 0x8000_0000_0000_0000;
      j := 63;
      TopMask();
      if i >= 0 {
        PrefixWord(d[i], High(d, i + 1));
      }
    }
  }

  lemma TopMask()
    ensures Pow2(63) == 0x8000_0000_0000_0000
  {
    Pow2Bytes();
    assert Pow2(64) == 2 * Pow2(63);
  }

  /** X-coordinates of P and 2P. */
  lemma Start<F(!new)>(c: Curve<F>, p: Point<F>)
    requires GroupLaws(c) && OnCurve(c, p) && p.Affine?
    ensures IsX(c, p.x, c.f.one, Times(c, 1, p))
    ensures IsX(c, c.f.add(c.f.Sq(c.f.Sq(p.x)), c.b), c.f.Sq(p.x), Times(c, 2, p))
  {
    FieldOf(c);
    hide IsField;
    MulOne(c.f, p.x);
    AddInfinity(c, p);
    assert Times(c, 1, p) == p by {
      assert Times(c, 1, p) == Add(c, Times(c, 0, p), p);
    }
    assert Times(c, 2, p) == Add(c, Times(c, 1, p), p);
    hide Times;
    hide OnCurve;
    hide Add;
    MulOne(c.f, c.f.one);
    DoubleX(c, p.x, c.f.one, p);
    hide GroupLaws;
    MulOne(c.f, c.b);
    MulOne(c.f, c.f.Sq(p.x));
    hide IsX;
  }

  /** The whole ladder, for an affine point and a nonzero scalar. */
  method MultiplyAffine<F(==,!new)>(c: Curve<F>, r: EcPoint<F>, scalar: seq<u64>, x: F, y: F)
    requires GroupLaws(c) && r.Shape() && OnCurve(c, Affine(x, y)) && |scalar| > 0 && scalar[|scalar| - 1] != 0
    modifies r`zIsOne, r.X, r.Y, r.Z
    ensures r.Value(c.f) == Times(c, High(scalar, 0), Affine(x, y))
  {
    hide GroupLaws;
    hide IsField;
    hide OnCurve;
    hide Add;
    hide IsX;
    hide Times;
    hide High;
    FieldOf(c);
    MulOne(c.f, c.f.one);
    Start(c, Affine(x, y));
    var f := c.f;
    var x1 := new Num(x);
    var z1 := new Num(f.one);
    r.Y.v := f.mul(x1.v, x1.v);
    r.X.v := f.mul(r.Y.v, r.Y.v);
    r.X.v := f.add(r.X.v, c.b);
    Ladder(c, x, x1, z1, r.X, r.Y, scalar, Affine(x, y));
    var i := Mxy(c, x, y, x1, z1, r.X, r.Y, High(scalar, 0));
    if i == 1 {
      r.SetToInfinity(f);
    } else {
      r.Z.v := f.one;
      r.zIsOne := true;
    }
  }

  /** ec_GF2m_montgomery_point_multiply for a non-negative scalar: r = kP by repeated ec_GF2m_simple_add. */
  method PointMultiply<F(==,!new)>(c: Curve<F>, r: EcPoint<F>, scalar: seq<u64>, point: EcPoint<F>) returns (ok: bool)
    requires GroupLaws(c) && r.Shape() && point.Shape() && point.Flagged(c.f)
    requires r != point ==> {r.X, r.Y, r.Z} !! {point.X, point.Y, point.Z}
    requires OnCurve(c, point.Value(c.f)) && (|scalar| > 0 ==> scalar[|scalar| - 1] != 0)
    modifies r`zIsOne, r.X, r.Y, r.Z
    ensures ok <==> r != point && (|scalar| == 0 || old(point.Z.v == c.f.zero || point.zIsOne))
    ensures ok ==> r.Value(c.f) == Times(c, High(scalar, 0), old(point.Value(c.f)))
  {
    hide GroupLaws;
    hide IsField;
    hide OnCurve;
    hide Add;
    if r == point {
      return false;
    }
    if |scalar| == 0 || point.Z.v == c.f.zero {
      TimesInfinity(c, High(scalar, 0));
      r.SetToInfinity(c.f);
      return true;
    }
    if !point.zIsOne {
      return false;
    }
    hide Times;
    hide High;
    MultiplyAffine(c, r, scalar, point.X.v, point.Y.v);
    ok := true;
  }
}
