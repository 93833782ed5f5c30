/**
 ge25519_double_scalarmult_vartime: [s1]P + [s2]B by a joint Horner scheme over two sliding-window recodings.
 */
module ScalarMult {
  import opened Numbers
  import opened Scalars
  import opened Recoding
  import opened Field25519
  import opened Groups
  import opened EdwardsLaw
  import opened EdwardsFormulas

  /** [n]p on the curve. */
  ghost function Times(n: int, p: CurvePoint): CurvePoint {
    Groups.Mul(EdwardsGroup(), n, p)
  }

  ghost function Plus(p: CurvePoint, q: CurvePoint): CurvePoint {
    EdwardsGroup().add(p, q)
  }

  lemma GroupIsAbelian()
    requires CurveLaws()
    ensures IsAbelian(EdwardsGroup())
  {
  }

  lemma PlusIs(p: CurvePoint, q: CurvePoint)
    ensures Plus(p, q) == EAdd(p, q)
    ensures EdwardsGroup().zero == Point(0, 1) && EdwardsGroup().neg(p) == ENeg(p)
  {
  }

  // ---------- the table of odd multiples ----------

  ghost predicate IsEntry(e: PNiels, q: CurvePoint)
    reads e.Repr()
  {
    e.Shape() && e.AllWide() && IsPNiels(e.Value(), q)
  }

  /** Entry k of the table is (2k + 1)p; the table's buffers lie in `region`. */
  ghost predicate OddMultiples(t: seq<PNiels>, p: CurvePoint, region: set<array<u64>>)
    reads region
  {
    forall k :: 0 <= k < |t| ==> t[k].Repr() <= region && IsEntry(t[k], Times(2 * k + 1, p))
  }

  lemma NextOdd(k: nat, p: CurvePoint)
    requires CurveLaws()
    ensures EAdd(EAdd(p, p), Times(2 * k + 1, p)) == Times(2 * k + 3, p)
    ensures Times(1, p) == p
  {
    GroupIsAbelian();
    hide CurveLaws;
    PlusIs(p, p);
    PlusIs(EAdd(p, p), Times(2 * k + 1, p));
    hide EAdd;
    TwoMore(EdwardsGroup(), k, p);
  }

  lemma TwoMore<T(!new)>(g: Group<T>, k: nat, p: T)
    requires IsAbelian(g)
    ensures g.add(g.add(p, p), Groups.Mul(g, 2 * k + 1, p)) == Groups.Mul(g, 2 * k + 3, p)
    ensures Groups.Mul(g, 1, p) == p
  {
    hide IsAbelian;
    hide Groups.Mul;
    MulOne(g, p);
    MulStep(g, 1, p);
    MulAdd(g, 2, 2 * k + 1, p);
  }

  /** pre1[k] = (2k + 1)P, each from the one before and 2P. */
  method BuildTable(p1: Ge, ghost p: CurvePoint) returns (pre1: seq<PNiels>, ghost region: set<array<u64>>)
    requires CurveLaws() && p1.Shape() && p1.AllRed() && IsFull(p1.Value(), p)
    ensures |pre1| == 8 && OddMultiples(pre1, p, region) && fresh(region)
  {
    hide CurveLaws;
    hide OnCurve;
    hide IsFull;
    hide IsEntry;
    hide Res;
    hide Red;
    hide EAdd;
    hide Times;
    var d1 := DoubleOf(p1, p);
    var first := FirstEntry(p1, p);
    pre1 := [first];
    region := first.Repr();
    var i: nat := 0;
    while i < 7
      invariant 0 <= i <= 7 && |pre1| == i + 1
      invariant d1.Shape() && d1.AllRed() && IsFull(d1.Value(), EAdd(p, p))
      invariant fresh(region) && OddMultiples(pre1, p, region)
    {
      var next := NextEntry(d1, pre1[i], EAdd(p, p), Times(2 * i + 1, p));
      NextOdd(i, p);
      pre1 := pre1 + [next];
      region := region + next.Repr();
      i := i + 1;
    }
  }

  /** 2P in fresh buffers. */
  method DoubleOf(p1: Ge, ghost p: CurvePoint) returns (d1: Ge)
    requires CurveLaws() && p1.Shape() && p1.AllRed() && IsFull(p1.Value(), p)
    ensures fresh(d1.Repr()) && d1.Shape() && d1.AllRed() && IsFull(d1.Value(), EAdd(p, p))
  {
    hide CurveLaws;
    hide OnCurve;
    hide IsFull;
    hide ToFull;
    hide DoubleCoords;
    hide Res;
    hide Red;
    hide EAdd;
    FullIsPartial(p1.Value(), p);
    DoubleFull(p1.Value(), p);
    d1 := new Ge();
    Double(d1, p1);
  }

  /** The first entry is P itself. */
  method FirstEntry(p1: Ge, ghost p: CurvePoint) returns (first: PNiels)
    requires CurveLaws() && p1.Shape() && p1.AllRed() && IsFull(p1.Value(), p)
    ensures fresh(first.Repr()) && IsEntry(first, Times(2 * 0 + 1, p))
  {
    hide CurveLaws;
    hide OnCurve;
    hide IsPNiels;
    hide IsFull;
    hide ToPNiels;
    hide Res;
    hide Red;
    hide EAdd;
    hide Times;
    first := new PNiels();
    FullToPNiels(first, p1);
    ToPNielsIs(p1.Value(), p);
    NextOdd(0, p);
  }

  /** Each further entry is the one before plus 2P. */
  method NextEntry(d1: Ge, prev: PNiels, ghost two: CurvePoint, ghost q: CurvePoint) returns (next: PNiels)
    requires CurveLaws() && d1.Shape() && d1.AllRed() && IsFull(d1.Value(), two) && IsEntry(prev, q)
    ensures fresh(next.Repr()) && IsEntry(next, EAdd(two, q))
  {
    hide CurveLaws;
    hide OnCurve;
    hide IsPNiels;
    hide IsFull;
    hide ToFull;
    hide ToPNiels;
    hide PNielsSum;
    hide Res;
    hide EAdd;
    next := new PNiels();
    PNielsAdd(next, d1, prev);
    PNielsAdds(d1.Value(), prev.Value(), two, q, false);
    ToFullKeepsPoint(PNielsSum(d1.Value(), prev.Value(), false), EAdd(two, q));
    ToPNielsIs(ToFull(PNielsSum(d1.Value(), prev.Value(), false)), EAdd(two, q));
  }

  lemma FullIsPartial(c: Coords, p: Point)
    requires IsFull(c, p)
    ensures IsPartial(c, p)
  {
  }

  lemma DoubleFull(c: Coords, p: CurvePoint)
    requires CurveLaws() && IsPartial(c, p)
    ensures IsFull(ToFull(DoubleCoords(c)), EAdd(p, p))
  {
    hide CurveLaws;
    hide IsPartial;
    hide IsP1P1;
    hide IsFull;
    DoubleIsDouble(c, p);
    ToFullKeepsPoint(DoubleCoords(c), EAdd(p, p));
  }

  /** One entry of ge25519_niels_sliding_multiples. */
  ghost predicate IsNielsEntry(e: Niels, q: CurvePoint)
    reads e.Repr()
  {
    e.Shape() && e.AllWide() && IsNiels(e.Value(), q)
  }

  /** ge25519_niels_sliding_multiples: entry k is (2k + 1)b. */
  ghost predicate SlidingMultiples(t: seq<Niels>, b: CurvePoint, region: set<array<u64>>)
    reads region
  {
    |t| == 32 && forall k :: 0 <= k < 32 ==> t[k].Repr() <= region && IsNielsEntry(t[k], Times(2 * k + 1, b))
  }

  // ---------- one digit ----------

  lemma OddHalf(d: int)
    requires d % 2 == 1
    ensures Abs(d) == 2 * (Abs(d) / 2) + 1
  {
  }

  /** Adding the entry for |d|, negated when d is, adds [d]p. */
  lemma SignedMultiple(acc: CurvePoint, d: int, p: CurvePoint)
    requires CurveLaws()
    ensures EAdd(acc, Signed(Times(Abs(d), p), d < 0)) == Plus(acc, Times(d, p))
  {
    hide CurveLaws;
    hide IsAbelian;
    hide EdwardsGroup;
    hide EAdd;
    hide ENeg;
    hide Groups.Mul;
    hide Plus;
    GroupIsAbelian();
    PlusIs(acc, Times(d, p));
    PlusIs(Times(Abs(d), p), acc);
    SignedMul(EdwardsGroup(), d, p);
  }

  lemma SignedMul<T(!new)>(g: Group<T>, d: int, p: T)
    requires IsAbelian(g)
    ensures Groups.Mul(g, d, p) == if d < 0 then g.neg(Groups.Mul(g, Abs(d), p)) else Groups.Mul(g, Abs(d), p)
  {
    hide IsAbelian;
    if d < 0 {
      MulNeg(g, -d, p);
    }
  }

  /** The digit of the point's own scalar: its table entry added or subtracted. */
  method AddOwnDigit(r: Ge, t: Ge, pre1: seq<PNiels>, d: i8, ghost p: CurvePoint, ghost acc: CurvePoint,
      ghost region: set<array<u64>>)
    requires CurveLaws() && r.Shape() && t.Shape() && r.Repr() !! t.Repr()
    requires |pre1| == 8 && OddMultiples(pre1, p, region) && region !! r.Repr() && region !! t.Repr()
    requires t.AllWide() && IsP1P1(t.Value(), acc)
    requires d % 2 == 1 && -15 <= d <= 15
    modifies r.x, r.y, r.z, r.t, t.x, t.y, t.z, t.t
    ensures t.AllWide() && IsP1P1(t.Value(), Plus(acc, Times(d, p)))
  {
    hide CurveLaws;
    hide OnCurve;
    hide IsP1P1;
    hide IsFull;
    hide IsPNiels;
    hide ToFull;
    hide PNielsSum;
    hide Res;
    hide EAdd;
    hide ENeg;
    hide Signed;
    hide Times;
    hide Plus;
    var k := Abs(d) / 2;
    var e := pre1[k];
    OddHalf(d);
    SignedMultiple(acc, d, p);
    assert IsEntry(e, Times(2 * k + 1, p));
    ghost var m := e.Value();
    ToFullKeepsPoint(t.Value(), acc);
    P1P1ToFull(r, t);
    PNielsAdds(r.Value(), m, acc, Times(2 * k + 1, p), d < 0);
    PNielsAddP1P1(t, r, e, d < 0);
  }

  /** The digit of the base point's scalar. */
  method AddBaseDigit(r: Ge, t: Ge, table: seq<Niels>, d: i8, ghost b: CurvePoint, ghost acc: CurvePoint,
      ghost region: set<array<u64>>)
    requires CurveLaws() && r.Shape() && t.Shape() && r.Repr() !! t.Repr()
    requires SlidingMultiples(table, b, region) && region !! r.Repr() && region !! t.Repr()
    requires t.AllWide() && IsP1P1(t.Value(), acc)
    requires d % 2 == 1 && -63 <= d <= 63
    modifies r.x, r.y, r.z, r.t, t.x, t.y, t.z, t.t
    ensures t.AllWide() && IsP1P1(t.Value(), Plus(acc, Times(d, b)))
  {
    hide CurveLaws;
    hide OnCurve;
    hide IsP1P1;
    hide IsFull;
    hide IsNiels;
    hide ToFull;
    hide NielsSum;
    hide Res;
    hide EAdd;
    hide ENeg;
    hide Signed;
    hide Times;
    hide Plus;
    var k := Abs(d) / 2;
    var e := table[k];
    OddHalf(d);
    SignedMultiple(acc, d, b);
    assert IsNielsEntry(e, Times(2 * k + 1, b));
    ghost var m := e.Value();
    ToFullKeepsPoint(t.Value(), acc);
    P1P1ToFull(r, t);
    NielsAdds(r.Value(), m, acc, Times(2 * k + 1, b), d < 0);
    NielsAdd2P1P1(t, r, e, d < 0);
  }

  /** 2([h1]p + [h2]b) + [d1]p + [d2]b = [2 h1 + d1]p + [2 h2 + d2]b. */
  lemma HornerStep<T(!new)>(g: Group<T>, h1: int, h2: int, d1: int, d2: int, p: T, b: T)
    requires IsAbelian(g)
    ensures var a := g.add(Groups.Mul(g, h1, p), Groups.Mul(g, h2, b));
      g.add(g.add(g.add(a, a), Groups.Mul(g, d1, p)), Groups.Mul(g, d2, b))
      == g.add(Groups.Mul(g, 2 * h1 + d1, p), Groups.Mul(g, 2 * h2 + d2, b))
  {
    hide IsAbelian;
    hide Groups.Mul;
    var x, y, u, v := Groups.Mul(g, h1, p), Groups.Mul(g, h2, b), Groups.Mul(g, d1, p), Groups.Mul(g, d2, b);
    var a := g.add(x, y);
    Swap4(g, x, y, x, y);
    MulAdd(g, h1, h1, p);
    MulAdd(g, h2, h2, b);
    Assoc(g, g.add(a, a), u, v);
    Swap4(g, g.add(x, x), g.add(y, y), u, v);
    MulAdd(g, 2 * h1, d1, p);
    MulAdd(g, 2 * h2, d2, b);
  }

  lemma AddZero<T(!new)>(g: Group<T>, a: T, p: T)
    requires IsAbelian(g)
    ensures g.add(a, Groups.Mul(g, 0, p)) == a
  {
    Identity(g, a);
  }

  /** The point the loop has built up: [h1]p + [h2]b. */
  ghost function Joint(h1: int, h2: int, p: CurvePoint, b: CurvePoint): CurvePoint {
    Plus(Times(h1, p), Times(h2, b))
  }

  lemma PlusZero(c: CurvePoint, p: CurvePoint)
    requires CurveLaws()
    ensures Plus(c, Times(0, p)) == c == Plus(Times(0, p), c)
  {
    hide CurveLaws;
    hide IsAbelian;
    hide EdwardsGroup;
    GroupIsAbelian();
    AddZero(EdwardsGroup(), c, p);
    Commute(EdwardsGroup(), c, Times(0, p));
  }

  lemma JointStep(h1: int, h2: int, d1: int, d2: int, p: CurvePoint, b: CurvePoint)
    requires CurveLaws()
    ensures Plus(Plus(Plus(Joint(h1, h2, p, b), Joint(h1, h2, p, b)), Times(d1, p)), Times(d2, b))
            == Joint(2 * h1 + d1, 2 * h2 + d2, p, b)
  {
    hide CurveLaws;
    hide IsAbelian;
    hide EdwardsGroup;
    hide Groups.Mul;
    GroupIsAbelian();
    HornerStep(EdwardsGroup(), h1, h2, d1, d2, p, b);
  }

  /** One turn of the main loop. T of `r` is stale on entry and on exit. */
  method Turn(r: Ge, t: Ge, pre1: seq<PNiels>, table: seq<Niels>, d1: i8, d2: i8,
      ghost h1: int, ghost h2: int, ghost p: CurvePoint, ghost b: CurvePoint, ghost region: set<array<u64>>)
    requires CurveLaws() && r.Shape() && t.Shape() && r.Repr() !! t.Repr()
    requires |pre1| == 8 && OddMultiples(pre1, p, region) && SlidingMultiples(table, b, region)
    requires region !! r.Repr() && region !! t.Repr()
    requires d1 == 0 || (d1 % 2 == 1 && -15 <= d1 <= 15)
    requires d2 == 0 || (d2 % 2 == 1 && -63 <= d2 <= 63)
    requires r.PartialRed() && IsPartial(r.Value(), Joint(h1, h2, p, b))
    modifies r.x, r.y, r.z, r.t, t.x, t.y, t.z, t.t
    ensures r.PartialRed() && IsPartial(r.Value(), Joint(2 * h1 + d1, 2 * h2 + d2, p, b))
  {
    hide CurveLaws;
    hide OnCurve;
    hide IsP1P1;
    hide IsPartial;
    hide IsEntry;
    hide IsNielsEntry;
    hide ToFull;
    hide DoubleCoords;
    hide Res;
    hide EAdd;
    hide Times;
    hide Plus;
    hide Joint;
    JointStep(h1, h2, d1, d2, p, b);
    ghost var a: CurvePoint := Plus(Joint(h1, h2, p, b), Joint(h1, h2, p, b));
    PlusIs(Joint(h1, h2, p, b), Joint(h1, h2, p, b));
    PlusZero(a, p);
    PlusZero(Plus(a, Times(d1, p)), b);
    hide EdwardsGroup;
    DoubleIsDouble(r.Value(), Joint(h1, h2, p, b));
    DoubleP1P1(t, r);
    if d1 != 0 {
      AddOwnDigit(r, t, pre1, d1, p, a, region);
    }
    a := Plus(a, Times(d1, p));
    if d2 != 0 {
      AddBaseDigit(r, t, table, d2, b, a, region);
    }
    a := Plus(a, Times(d2, b));
    PartialOf(t.Value(), r.Value().t, a);
    P1P1ToPartial(r, t);
  }

  lemma PartialOf(c: Coords, stale: int, p: Point)
    requires CurveLaws() && IsP1P1(c, p)
    ensures IsPartial(ToFull(c).(t := stale), p)
  {
    hide CurveLaws;
    hide IsP1P1;
    ToFullKeepsPoint(c, p);
  }

  /** memset(r, 0), y[0] = 1, z[0] = 1: the neutral point. */
  method SetNeutral(r: Ge)
    requires r.Shape()
    modifies r.x, r.y, r.z, r.t
    ensures r.AllRed() && IsFull(r.Value(), Point(0, 1))
  {
    r.x[0], r.x[1], r.x[2], r.x[3], r.x[4] := 0, 0, 0, 0, 0;
    r.y[0], r.y[1], r.y[2], r.y[3], r.y[4] := 1, 0, 0, 0, 0;
    r.z[0], r.z[1], r.z[2], r.z[3], r.z[4] := 1, 0, 0, 0, 0;
    r.t[0], r.t[1], r.t[2], r.t[3], r.t[4] := 0, 0, 0, 0, 0;
    Units(r.x[..]);
    Units(r.y[..]);
    Units(r.z[..]);
    Units(r.t[..]);
  }

  lemma Units(s: seq<int>)
    requires |s| == 5 && (s[0] == 0 || s[0] == 1) && s[1] == 0 && s[2] == 0 && s[3] == 0 && s[4] == 0
    ensures Red(s) && Res(s) == s[0]
  {
  }

  lemma JointZero(p: CurvePoint, b: CurvePoint)
    requires CurveLaws()
    ensures Joint(0, 0, p, b) == Point(0, 1)
  {
    hide CurveLaws;
    hide IsAbelian;
    GroupIsAbelian();
    Identity(EdwardsGroup(), EdwardsGroup().zero);
  }

  /** The number in the digits from position i up, as the loop meets them. */
  function Above(d: seq<int>, i: nat): int
    decreases |d| - i
  {
    if i >= |d| then 0 else d[i] + 2 * Above(d, i + 1)
  }

  lemma {:induction false} AboveIsEval(d: seq<int>, i: nat)
    requires i <= |d|
    ensures Above(d, i) == Eval(2, d[i..])
    decreases |d| - i
  {
    if i < |d| {
      AboveIsEval(d, i + 1);
      assert d[i..][1..] == d[i + 1..];
    }
  }

  lemma AboveAll(d: seq<int>)
    ensures Above(d, 0) == Eval(2, d)
  {
    AboveIsEval(d, 0);
    assert d[0..] == d;
  }

  lemma AboveStep(d: seq<int>, i: nat)
    requires i < |d|
    ensures Above(d, i) == d[i] + 2 * Above(d, i + 1)
  {
  }

  lemma {:induction false} AboveZero(d: seq<int>, i: nat)
    requires forall k :: i <= k < |d| ==> d[k] == 0
    ensures Above(d, i) == 0
    decreases |d| - i
  {
    if i < |d| {
      AboveZero(d, i + 1);
    }
  }

  /** The joint Horner loop over both recodings. */
  method Horner(r: Ge, slide1: array<i8>, slide2: array<i8>, pre1: seq<PNiels>, table: seq<Niels>,
      ghost p: CurvePoint, ghost b: CurvePoint, ghost region: set<array<u64>>)
    requires CurveLaws() && r.Shape()
    requires slide1.Length == 256 && OddBelow(slide1[..], 256, 15)
    requires slide2.Length == 256 && OddBelow(slide2[..], 256, 63)
    requires |pre1| == 8 && OddMultiples(pre1, p, region) && SlidingMultiples(table, b, region)
    requires region !! r.Repr()
    modifies r.x, r.y, r.z, r.t
    ensures r.PartialRed()
    ensures IsPartial(r.Value(), Joint(Eval(2, slide1[..]), Eval(2, slide2[..]), p, b))
  {
    hide CurveLaws;
    hide OnCurve;
    hide IsPartial;
    hide IsFull;
    hide IsEntry;
    hide IsNielsEntry;
    hide Res;
    hide Red;
    hide Joint;
    hide Eval;
    hide Above;
    hide OddMultiples;
    hide SlidingMultiples;
    SetNeutral(r);
    JointZero(p, b);
    FullIsPartial(r.Value(), Joint(0, 0, p, b));
    var t := new Ge();
    ghost var e1: seq<int>, e2: seq<int> := slide1[..], slide2[..];
    AboveAll(e1);
    AboveAll(e2);
    var i := SkipZeros(slide1, slide2);
    while i >= 0
      invariant -1 <= i < 256
      invariant r.PartialRed()
      invariant IsPartial(r.Value(), Joint(Above(e1, i + 1), Above(e2, i + 1), p, b))
      invariant slide1[..] == e1 && slide2[..] == e2
    {
      AboveStep(e1, i);
      AboveStep(e2, i);
      Turn(r, t, pre1, table, slide1[i], slide2[i], Above(e1, i + 1), Above(e2, i + 1), p, b, region);
      i := i - 1;
    }
  }

  /** ge25519_double_scalarmult_vartime: r = [s1]p + [s2]b; T of r is stale. */
  method DoubleScalarmult(r: Ge, p1: Ge, s1: array<u64>, s2: array<u64>, table: seq<Niels>,
      ghost p: CurvePoint, ghost b: CurvePoint, ghost region: set<array<u64>>)
    requires CurveLaws() && r.Shape() && p1.Shape() && p1.AllRed() && IsFull(p1.Value(), p)
    requires r.Repr() !! p1.Repr() && s1 !in r.Repr() && s2 !in r.Repr()
    requires s1.Length == 5 && Limbs(s1[..], 0x1_0000_0000) && Val(s1[..]) < TWO255
    requires s2.Length == 5 && Limbs(s2[..], 0x1_0000_0000) && Val(s2[..]) < TWO255
    requires SlidingMultiples(table, b, region) && region !! r.Repr()
    modifies r.x, r.y, r.z, r.t
    ensures r.PartialRed()
    ensures IsPartial(r.Value(), Joint(Val(s1[..]), Val(s2[..]), p, b))
  {
    hide CurveLaws;
    hide OnCurve;
    hide IsPartial;
    hide IsFull;
    hide IsEntry;
    hide IsNielsEntry;
    hide Res;
    hide Red;
    hide Joint;
    hide Val;
    hide Eval;
    hide OddBelow;
    hide SpacedBelow;
    hide OddMultiples;
    hide SlidingMultiples;
    var slide1, slide2 := new i8[256], new i8[256];
    SlidingWindow(slide1, s1, 5);
    SlidingWindow(slide2, s2, 7);
    WindowDigits();
    ghost var own;
    var pre1;
    pre1, own := BuildTable(p1, p);
    WidenOdd(pre1, p, own, own + region);
    WidenSliding(table, b, region, own + region);
    Horner(r, slide1, slide2, pre1, table, p, b, own + region);
  }

  lemma WidenOdd(t: seq<PNiels>, p: CurvePoint, small: set<array<u64>>, large: set<array<u64>>)
    requires OddMultiples(t, p, small) && small <= large
    ensures OddMultiples(t, p, large)
  {
  }

  lemma WidenSliding(t: seq<Niels>, b: CurvePoint, small: set<array<u64>>, large: set<array<u64>>)
    requires SlidingMultiples(t, b, small) && small <= large
    ensures SlidingMultiples(t, b, large)
  {
  }

  lemma WindowDigits()
    ensures Pow2(4) - 1 == 15 && Pow2(6) - 1 == 63
  {
  }

  /** The highest position where either recoding has a digit, or -1. */
  method SkipZeros(slide1: array<i8>, slide2: array<i8>) returns (i: int)
    requires slide1.Length == 256 && slide2.Length == 256
    ensures -1 <= i < 256
    ensures Above(slide1[..], i + 1) == 0 && Above(slide2[..], i + 1) == 0
  {
    i := 255;
    while i >= 0 && slide1[i] == 0 && slide2[i] == 0
      invariant -1 <= i < 256
      invariant forall k :: i < k < 256 ==> slide1[k] == 0 && slide2[k] == 0
    {
      i := i - 1;
    }
    AboveZero(slide1[..], i + 1);
    AboveZero(slide2[..], i + 1);
  }
}
