/**
 The affine law on y^2 + xy = x^3 + ax^2 + b (ec2_smpl.cpp), and what x-coordinates alone know of it.
 */
module BinaryCurve {
  import opened BinaryField

  datatype Point<F> = Infinity | Affine(x: F, y: F)

  datatype Curve<!F> = Curve(f: Field<F>, a: F, b: F)

  /** y^2 + xy = x^3 + ax^2 + b. */
  ghost predicate OnCurve<F(!new)>(c: Curve<F>, p: Point<F>) {
    p.Affine? ==>
      c.f.add(c.f.Sq(p.y), c.f.mul(p.x, p.y))
      == c.f.Add3(c.f.mul(c.f.Sq(p.x), p.x), c.f.mul(c.a, c.f.Sq(p.x)), c.b)
  }

  /** The sum from a slope: x2 = s^2 + s + a + t, y2 = (x1 + x2)s + x2 + y1. */
  function FromSlope<F>(c: Curve<F>, s: F, t: F, q: Point<F>): Point<F>
    requires q.Affine?
  {
    var x := c.f.Add4(c.f.Sq(s), c.a, s, t);
    Affine(x, c.f.Add3(c.f.mul(c.f.add(q.x, x), s), x, q.y))
  }

  /** ec_GF2m_simple_add. */
  function Add<F(==)>(c: Curve<F>, p: Point<F>, q: Point<F>): Point<F> {
    if p.Infinity? then q
    else if q.Infinity? then p
    else if p.x != q.x then
      var t := c.f.add(p.x, q.x);
      FromSlope(c, c.f.Div(c.f.add(p.y, q.y), t), t, q)
    else if p.y != q.y || q.x == c.f.zero then Infinity
    else
      FromSlope(c, c.f.add(c.f.Div(q.y, q.x), q.x), c.f.zero, q)
  }

  /** (x, x + y). */
  function Neg<F>(c: Curve<F>, p: Point<F>): Point<F> {
    match p
    case Infinity => Infinity
    case Affine(x, y) => Affine(x, c.f.add(x, y))
  }

  /** The curve is not singular, and the affine law is a commutative, associative law on it. */
  ghost predicate GroupLaws<F(!new)>(c: Curve<F>) {
    IsField(c.f) && c.b != c.f.zero && forall p, q, r :: AddLawsAt(c, p, q, r)
  }

  /** The laws at three points. */
  ghost predicate AddLawsAt<F(!new)>(c: Curve<F>, p: Point<F>, q: Point<F>, r: Point<F>) {
    OnCurve(c, p) && OnCurve(c, q) && OnCurve(c, r) ==>
      && OnCurve(c, Add(c, p, q)) && Add(c, p, q) == Add(c, q, p)
      && Add(c, Add(c, p, q), r) == Add(c, p, Add(c, q, r))
  }

  /** p added to itself k times. */
  function Times<F(==)>(c: Curve<F>, k: nat, p: Point<F>): Point<F> {
    if k == 0 then Infinity else Add(c, Times(c, k - 1, p), p)
  }

  // ---------- group facts ----------

  lemma FieldOf<F(!new)>(c: Curve<F>)
    requires GroupLaws(c)
    ensures IsField(c.f) && c.b != c.f.zero
  {
    hide IsField;
  }

  lemma AddLaws<F(!new)>(c: Curve<F>, p: Point<F>, q: Point<F>, r: Point<F>)
    requires GroupLaws(c) && OnCurve(c, p) && OnCurve(c, q) && OnCurve(c, r)
    ensures OnCurve(c, Add(c, p, q)) && Add(c, p, q) == Add(c, q, p)
    ensures Add(c, Add(c, p, q), r) == Add(c, p, Add(c, q, r))
  {
    hide IsField;
    hide OnCurve;
    hide Add;
    assert AddLawsAt(c, p, q, r);
  }

  lemma {:induction false} TimesOnCurve<F(!new)>(c: Curve<F>, k: nat, p: Point<F>)
    requires GroupLaws(c) && OnCurve(c, p)
    ensures OnCurve(c, Times(c, k, p))
  {
    hide GroupLaws;
    hide Add;
    if k > 0 {
      TimesOnCurve(c, k - 1, p);
      hide OnCurve;
      AddLaws(c, Times(c, k - 1, p), p, p);
    }
  }

  lemma {:induction false} TimesAdd<F(!new)>(c: Curve<F>, m: nat, n: nat, p: Point<F>)
    requires GroupLaws(c) && OnCurve(c, p)
    ensures Add(c, Times(c, m, p), Times(c, n, p)) == Times(c, m + n, p)
  {
    hide GroupLaws;
    hide OnCurve;
    TimesOnCurve(c, m, p);
    if n == 0 {
      assert Times(c, 0, p) == Infinity;
      AddInfinity(c, Times(c, m, p));
    } else {
      TimesAdd(c, m, n - 1, p);
      TimesOnCurve(c, n - 1, p);
      AddLaws(c, Times(c, m, p), Times(c, n - 1, p), p);
      hide Add;
      assert Times(c, m + n, p) == Add(c, Times(c, m + (n - 1), p), p);
    }
  }

  lemma AddInfinity<F>(c: Curve<F>, p: Point<F>)
    ensures Add(c, p, Infinity) == p == Add(c, Infinity, p)
  {
  }

  lemma {:induction false} TimesInfinity<F>(c: Curve<F>, k: nat)
    ensures Times(c, k, Infinity) == Infinity
  {
    if k > 0 {
      TimesInfinity(c, k - 1);
    }
  }

  /** Neg gives the inverse. */
  lemma AddNeg<F(!new)>(c: Curve<F>, p: Point<F>)
    requires IsField(c.f)
    ensures Add(c, p, Neg(c, p)) == Infinity
  {
    hide IsField;
    if p.Affine? {
      if p.y == c.f.add(p.x, p.y) {
        AddCommute(c.f, p.x, p.y);
        AddTwice(c.f, p.x, p.y);
        AddZero(c.f, p.y);
        AddIsZero(c.f, p.y, c.f.add(p.x, p.y));
        AddTwice(c.f, p.y, p.x);
        assert c.f.add(p.y, c.f.add(p.y, p.x)) == p.x;
      }
    }
  }

  lemma NegOnCurve<F(!new)>(c: Curve<F>, p: Point<F>)
    requires IsField(c.f) && OnCurve(c, p)
    ensures OnCurve(c, Neg(c, p))
  {
    if p.Affine? {
      var f, x, y := c.f, p.x, p.y;
      Frobenius(f, x, y);
      Dist(f, x, y, x);
      hide MulLaws;
      SameBits(f, f.add(f.add(f.Sq(x), f.Sq(y)), f.add(f.Sq(x), f.mul(x, y))), f.add(f.Sq(y), f.mul(x, y)));
    }
  }

  // ---------- the sum, from a slope ----------

  /** The chord: its slope s times x1 + x2 is y1 + y2, and x3 = s^2 + s + x1 + x2 + a, y3 = s(x1 + x3) + x3 + y1. */
  lemma ChordIs<F(!new)>(c: Curve<F>, p: Point<F>, q: Point<F>)
    requires IsField(c.f) && p.Affine? && q.Affine? && p.x != q.x
    ensures var f, r, t := c.f, Add(c, p, q), c.f.add(p.x, q.x); var s := f.Div(f.add(p.y, q.y), t);
      && r.Affine? && f.mul(s, t) == f.add(p.y, q.y)
      && r.x == f.Add4(f.Sq(s), s, t, c.a) && r.y == f.Add3(f.mul(s, f.add(p.x, r.x)), r.x, p.y)
  {
    hide IsField;
    var f, r, t := c.f, Add(c, p, q), c.f.add(p.x, q.x);
    var s := f.Div(f.add(p.y, q.y), t);
    AddIsZero(f, p.x, q.x);
    DivMul(f, f.add(p.y, q.y), t);
    Reordered(f, f.Sq(s), c.a, s, t);
    Dist(f, p.x, q.x, s);
    Dist(f, p.x, r.x, s);
    Dist(f, q.x, r.x, s);
    MulCommute(f, f.add(q.x, r.x), s);
    EitherEnd(f, f.mul(s, p.x), f.mul(s, q.x), f.mul(s, r.x), r.x, p.y, q.y);
  }

  lemma Reordered<F(!new)>(f: Field<F>, u: F, a: F, s: F, t: F)
    requires IsField(f)
    ensures f.Add4(u, a, s, t) == f.Add4(u, s, t, a)
  {
    hide MulLaws;
    SameBits(f, f.Add4(u, a, s, t), f.Add4(u, s, t, a));
  }

  /** A line through two points is the same from either. */
  lemma EitherEnd<F(!new)>(f: Field<F>, sp: F, sq: F, sr: F, x: F, yp: F, yq: F)
    requires IsField(f) && f.add(sp, sq) == f.add(yp, yq)
    ensures f.Add3(f.add(sq, sr), x, yq) == f.Add3(f.add(sp, sr), x, yp)
  {
    hide MulLaws;
    SameBits(f, f.Add3(f.add(sq, sr), x, yq), f.Add3(f.add(sp, sr), f.add(f.add(sp, sq), x), yq));
    SameBits(f, f.Add3(f.add(sp, sr), f.add(f.add(yp, yq), x), yq), f.Add3(f.add(sp, sr), x, yp));
  }

  /** The tangent: its slope s times x is x^2 + y, and x3 = s^2 + s + a, y3 = x^2 + (s + 1) x3. */
  lemma TangentIs<F(!new)>(c: Curve<F>, p: Point<F>)
    requires IsField(c.f) && p.Affine? && p.x != c.f.zero
    ensures var f, r := c.f, Add(c, p, p); var s := f.add(f.Div(p.y, p.x), p.x);
      && r.Affine? && f.mul(s, p.x) == f.add(f.Sq(p.x), p.y)
      && r.x == f.Add3(f.Sq(s), s, c.a) && r.y == f.add(f.Sq(p.x), f.mul(f.add(s, f.one), r.x))
  {
    hide IsField;
    var f, r := c.f, Add(c, p, p);
    var s := f.add(f.Div(p.y, p.x), p.x);
    DivMul(f, p.y, p.x);
    Dist(f, f.Div(p.y, p.x), p.x, p.x);
    AddCommute(f, p.y, f.Sq(p.x));
    Reordered(f, f.Sq(s), c.a, s, f.zero);
    Reordered(f, f.Sq(s), f.zero, s, c.a);
    AddZero(f, f.Sq(s));
    AddZero(f, f.add(f.Sq(s), s));
    Dist(f, p.x, r.x, s);
    MulCommute(f, f.add(p.x, r.x), s);
    MulCommute(f, s, p.x);
    Dist(f, s, f.one, r.x);
    MulOne(f, r.x);
    TangentSum(f, f.Sq(p.x), p.y, f.mul(s, r.x), r.x);
  }

  lemma TangentSum<F(!new)>(f: Field<F>, xx: F, y: F, sr: F, x: F)
    requires IsField(f)
    ensures f.Add3(f.add(f.add(xx, y), sr), x, y) == f.add(xx, f.add(sr, x))
  {
    hide MulLaws;
    SameBits(f, f.Add3(f.add(f.add(xx, y), sr), x, y), f.add(xx, f.add(sr, x)));
  }

  // ---------- x-coordinates ----------

  /** x(P1 + P2) from x(P2 - P1): for t = x1 + x2, x(P1 + P2) t^2 = x(P2 - P1) t^2 + x1 x2. */
  lemma SumFromDifference<F(!new)>(c: Curve<F>, p1: Point<F>, p2: Point<F>)
    requires IsField(c.f) && p1.Affine? && p2.Affine? && p1.x != p2.x
    ensures var f, s, d := c.f, Add(c, p1, p2), Add(c, Neg(c, p1), p2);
      var tt := f.Sq(f.add(p1.x, p2.x));
      s.Affine? && d.Affine? && f.mul(s.x, tt) == f.add(f.mul(d.x, tt), f.mul(p1.x, p2.x))
  {
    hide IsField;
    var f := c.f;
    var x1, x2 := p1.x, p2.x;
    var t := f.add(x1, x2);
    AddIsZero(f, x1, x2);
    var n := f.add(p1.y, p2.y);
    var s, u := f.Div(n, t), f.Div(x1, t);
    SlopeOfDifference(f, x1, p1.y, p2.y, t);
    Frobenius(f, s, u);
    var xs, xd := Add(c, p1, p2).x, Add(c, Neg(c, p1), p2).x;
    XsFromXd(f, s, u, c.a, t);
    SlopeGap(f, x1, x2);
    var tt := f.Sq(t);
    Dist(f, xd, f.add(f.Sq(u), u), tt);
  }

  lemma SlopeOfDifference<F(!new)>(f: Field<F>, x1: F, y1: F, y2: F, t: F)
    requires IsField(f)
    ensures f.Div(f.add(f.add(x1, y1), y2), t) == f.add(f.Div(f.add(y1, y2), t), f.Div(x1, t))
  {
    hide MulLaws;
    SameBits(f, f.add(f.add(x1, y1), y2), f.add(f.add(y1, y2), x1));
    Dist(f, f.add(y1, y2), x1, f.inv(t));
  }

  lemma XsFromXd<F(!new)>(f: Field<F>, s: F, u: F, a: F, t: F)
    requires IsField(f) && f.Sq(f.add(s, u)) == f.add(f.Sq(s), f.Sq(u))
    ensures f.Add4(f.Sq(s), a, s, t)
            == f.add(f.Add4(f.Sq(f.add(s, u)), a, f.add(s, u), t), f.add(f.Sq(u), u))
  {
    hide MulLaws;
    SameBits(f, f.Add4(f.Sq(s), a, s, t),
             f.add(f.Add4(f.add(f.Sq(s), f.Sq(u)), a, f.add(s, u), t), f.add(f.Sq(u), u)));
  }

  /** With u = x1 / (x1 + x2): (u^2 + u)(x1 + x2)^2 = x1 x2. */
  lemma SlopeGap<F(!new)>(f: Field<F>, x1: F, x2: F)
    requires IsField(f) && x1 != x2
    ensures var t := f.add(x1, x2); var u := f.Div(x1, t);
      f.mul(f.add(f.Sq(u), u), f.Sq(t)) == f.mul(x1, x2)
  {
    hide IsField;
    var t := f.add(x1, x2);
    var u := f.Div(x1, t);
    AddIsZero(f, x1, x2);
    DivMul(f, x1, t);
    Dist(f, f.Sq(u), u, f.Sq(t));
    Mul4(f, u, u, t, t);
    MulAssoc(f, u, t, t);
    Dist(f, x1, t, x1);
    AddTwice(f, x2, x1);
  }

  /** x(2P) x^2 = x^4 + b. */
  lemma XOfDouble<F(!new)>(c: Curve<F>, p: Point<F>)
    requires IsField(c.f) && OnCurve(c, p) && p.Affine? && p.x != c.f.zero
    ensures var f, d := c.f, Add(c, p, p);
      d.Affine? && f.mul(d.x, f.Sq(p.x)) == f.add(f.Sq(f.Sq(p.x)), c.b)
  {
    hide IsField;
    var f, x, y := c.f, p.x, p.y;
    var w := f.Div(y, x);
    var xx := f.Sq(x);
    DivMul(f, y, x);
    Frobenius(f, w, x);
    Mul4(f, w, w, x, x);
    MulAssoc(f, w, x, x);
    MulCommute(f, y, x);
    MulCommute(f, xx, x);
    DoubleTerms(f, w, x, c.a, xx);
    hide OnCurve;
    DoubleSum(f, f.Sq(y), f.mul(x, y), f.Sq(xx), f.mul(x, xx), f.mul(c.a, xx), c.b);
  }

  lemma DoubleTerms<F(!new)>(f: Field<F>, w: F, x: F, a: F, xx: F)
    requires IsField(f)
    ensures f.mul(f.Add4(f.add(f.Sq(w), f.Sq(x)), a, f.add(w, x), f.zero), xx)
            == f.add(f.add(f.add(f.mul(f.Sq(w), xx), f.mul(f.Sq(x), xx)), f.mul(a, xx)),
                     f.add(f.mul(w, xx), f.mul(x, xx)))
  {
    hide IsField;
    var p, q := f.add(f.Sq(w), f.Sq(x)), f.add(w, x);
    AddZero(f, f.Add3(p, a, q));
    Dist(f, f.add(p, a), q, xx);
    Dist(f, p, a, xx);
    Dist(f, f.Sq(w), f.Sq(x), xx);
    Dist(f, w, x, xx);
  }

  lemma DoubleSum<F(!new)>(f: Field<F>, yy: F, xy: F, x4: F, x3: F, ax2: F, b: F)
    requires IsField(f) && f.add(yy, xy) == f.Add3(x3, ax2, b)
    ensures f.add(f.add(f.add(yy, x4), ax2), f.add(xy, x3)) == f.add(x4, b)
  {
    hide MulLaws;
    SameBits(f, f.add(f.add(f.add(yy, x4), ax2), f.add(xy, x3)), f.add(f.add(f.add(yy, xy), x4), f.add(ax2, x3)));
    SameBits(f, f.add(f.add(f.Add3(x3, ax2, b), x4), f.add(ax2, x3)), f.add(x4, b));
  }
}
