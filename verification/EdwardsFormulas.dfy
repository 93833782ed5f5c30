/**
 Point formulas on extended twisted Edwards coordinates (ed25519-donna-impl-base.h), on limb arrays.
 Every field call meets its limb bound: from reduced coordinates no subtraction goes negative and no sum
 or product wraps. Each method's result is stated on residues; EdwardsLaw says what those mean.
 */
module EdwardsFormulas {
  import opened Numbers
  import opened Field25519
  import opened EdwardsLaw

  /** ge25519 and ge25519_p1p1: four field elements in buffers of their own. */
  class Ge {
    const x: array<u64>
    const y: array<u64>
    const z: array<u64>
    const t: array<u64>

    constructor ()
      ensures Shape() && fresh(x) && fresh(y) && fresh(z) && fresh(t)
    {
      x, y, z, t := new u64[5], new u64[5], new u64[5], new u64[5];
    }

    ghost predicate Shape() {
      && x.Length == 5 && y.Length == 5 && z.Length == 5 && t.Length == 5
      && x != y && x != z && x != t && y != z && y != t && z != t
    }

    ghost function Repr(): set<array<u64>> {
      {x, y, z, t}
    }

    ghost function Value(): Coords
      requires Shape()
      reads x, y, z, t
    {
      Coords(Res(x[..]), Res(y[..]), Res(z[..]), Res(t[..]))
    }

    /** X, Y, Z reduced; T may be stale. */
    ghost predicate PartialRed()
      reads x, y, z
    {
      Red(x[..]) && Red(y[..]) && Red(z[..])
    }

    ghost predicate AllRed()
      reads x, y, z, t
    {
      PartialRed() && Red(t[..])
    }

    ghost predicate AllWide()
      reads x, y, z, t
    {
      Wide(x[..]) && Wide(y[..]) && Wide(z[..]) && Wide(t[..])
    }
  }

  /** ge25519_niels. */
  class Niels {
    const ysubx: array<u64>
    const xaddy: array<u64>
    const t2d: array<u64>

    constructor ()
      ensures Shape() && fresh(ysubx) && fresh(xaddy) && fresh(t2d)
    {
      ysubx, xaddy, t2d := new u64[5], new u64[5], new u64[5];
    }

    ghost predicate Shape() {
      && ysubx.Length == 5 && xaddy.Length == 5 && t2d.Length == 5
      && ysubx != xaddy && ysubx != t2d && xaddy != t2d
    }

    ghost function Repr(): set<array<u64>> {
      {ysubx, xaddy, t2d}
    }

    ghost function Value(): NielsRes
      requires Shape()
      reads ysubx, xaddy, t2d
    {
      NielsRes(Res(ysubx[..]), Res(xaddy[..]), Res(t2d[..]))
    }

    ghost predicate AllRed()
      reads ysubx, xaddy, t2d
    {
      Red(ysubx[..]) && Red(xaddy[..]) && Red(t2d[..])
    }

    ghost predicate AllWide()
      reads ysubx, xaddy, t2d
    {
      Wide(ysubx[..]) && Wide(xaddy[..]) && Wide(t2d[..])
    }
  }

  /** ge25519_pniels. */
  class PNiels {
    const ysubx: array<u64>
    const xaddy: array<u64>
    const z: array<u64>
    const t2d: array<u64>

    constructor ()
      ensures Shape() && fresh(ysubx) && fresh(xaddy) && fresh(z) && fresh(t2d)
    {
      ysubx, xaddy, z, t2d := new u64[5], new u64[5], new u64[5], new u64[5];
    }

    ghost predicate Shape() {
      && ysubx.Length == 5 && xaddy.Length == 5 && z.Length == 5 && t2d.Length == 5
      && ysubx != xaddy && ysubx != z && ysubx != t2d && xaddy != z && xaddy != t2d && z != t2d
    }

    ghost function Repr(): set<array<u64>> {
      {ysubx, xaddy, z, t2d}
    }

    ghost function Value(): PNielsRes
      requires Shape()
      reads ysubx, xaddy, z, t2d
    {
      PNielsRes(Res(ysubx[..]), Res(xaddy[..]), Res(z[..]), Res(t2d[..]))
    }

    ghost predicate AllWide()
      reads ysubx, xaddy, z, t2d
    {
      Wide(ysubx[..]) && Wide(xaddy[..]) && Wide(z[..]) && Wide(t2d[..])
    }
  }

  // ---------- constants ----------

  /** ge25519_ecd. */
  method Ecd() returns (a: array<u64>)
    ensures fresh(a) && a.Length == 5 && Red(a[..]) && Res(a[..]) == D
  {
    a := new u64[5];
    a[0], a[1], a[2], a[3], a[4] := 0x00034dca135978a3, 0x0001a8283b156ebd, 0x0005e7a26001c029, 0x000739c663a03cbb,
        0x00052036cee2b6ff;
    assert FV(a[..]) == 0x5203_6cee_2b6f_fe73_8cc7_4079_7779_e898_0070_0a4d_4141_d8ab_75eb_4dca_1359_78a3;
  }

  /** ge25519_ec2d. */
  method Ec2d() returns (a: array<u64>)
    ensures fresh(a) && a.Length == 5 && Red(a[..]) && Res(a[..]) == D2
  {
    a := new u64[5];
    a[0], a[1], a[2], a[3], a[4] := 0x00069b9426b2f159, 0x00035050762add7a, 0x0003cf44c0038052, 0x0006738cc7407977,
        0x0002406d9dc56dff;
    assert FV(a[..]) == 0x2406_d9dc_56df_fce7_198e_80f2_eef3_d130_00e0_149a_8283_b156_ebd6_9b94_26b2_f159;
  }

  // ---------- conversions ----------

  /** ge25519_p1p1_to_partial: T is left as it was. */
  method P1P1ToPartial(r: Ge, p: Ge)
    requires r.Shape() && p.Shape() && r.Repr() !! p.Repr() && p.AllWide()
    modifies r.x, r.y, r.z
    ensures r.PartialRed()
    ensures r.Value() == ToFull(p.Value()).(t := old(r.Value().t))
  {
    hide FMul;
    hide Res;
    hide Red;
    hide Loose;
    hide Wide;
    Mul(r.x, p.x, p.t);
    Mul(r.y, p.y, p.z);
    Mul(r.z, p.z, p.t);
  }

  /** ge25519_p1p1_to_full. */
  method P1P1ToFull(r: Ge, p: Ge)
    requires r.Shape() && p.Shape() && r.Repr() !! p.Repr() && p.AllWide()
    modifies r.x, r.y, r.z, r.t
    ensures r.AllRed()
    ensures r.Value() == ToFull(p.Value())
  {
    hide FMul;
    hide Res;
    hide Red;
    hide Loose;
    hide Wide;
    Mul(r.x, p.x, p.t);
    Mul(r.y, p.y, p.z);
    Mul(r.z, p.z, p.t);
    Mul(r.t, p.x, p.y);
  }

  /** ge25519_full_to_pniels. */
  method FullToPNiels(p: PNiels, r: Ge)
    requires p.Shape() && r.Shape() && p.Repr() !! r.Repr() && r.AllRed()
    modifies p.ysubx, p.xaddy, p.z, p.t2d
    ensures p.AllWide()
    ensures p.Value() == ToPNiels(r.Value())
  {
    hide FMul;
    hide FAdd;
    hide FSub;
    hide Res;
    hide Red;
    hide Loose;
    hide Wide;
    var ec2d := Ec2d();
    Sub(p.ysubx, r.y, r.x);
    Add(p.xaddy, r.y, r.x);
    Copy(p.z, r.z);
    Mul(p.t2d, r.t, ec2d);
  }

  // ---------- addition and doubling ----------

  /** (y - x) s and (y + x) u, how every addition begins. */
  method Pair(x: array<u64>, y: array<u64>, s: array<u64>, u: array<u64>) returns (a: array<u64>, b: array<u64>)
    requires x.Length == 5 && y.Length == 5 && s.Length == 5 && u.Length == 5
    requires Red(x[..]) && Red(y[..]) && Wide(s[..]) && Wide(u[..])
    ensures fresh(a) && fresh(b) && a != b && a.Length == 5 && b.Length == 5
    ensures Red(a[..]) && Red(b[..])
    ensures Res(a[..]) == FMul(FSub(Res(y[..]), Res(x[..])), Res(s[..]))
    ensures Res(b[..]) == FMul(FAdd(Res(y[..]), Res(x[..])), Res(u[..]))
  {
    hide FMul;
    hide FAdd;
    hide FSub;
    hide Res;
    hide Red;
    hide Loose;
    hide Wide;
    a, b := new u64[5], new u64[5];
    Sub(a, y, x);
    Add(b, y, x);
    Mul(a, a, s);
    Mul(b, b, u);
  }

  /** ge25519_add_p1p1. */
  method AddP1P1(r: Ge, p: Ge, q: Ge)
    requires r.Shape() && p.Shape() && q.Shape() && r.Repr() !! p.Repr() && r.Repr() !! q.Repr()
    requires p.AllRed() && q.AllRed()
    modifies r.x, r.y, r.z, r.t
    ensures r.AllWide() && r.Value() == SumCoords(p.Value(), q.Value())
  {
    hide FMul;
    hide FAdd;
    hide FSub;
    hide Res;
    hide Red;
    hide Loose;
    hide Wide;
    var t, u := new u64[5], new u64[5];
    Sub(t, q.y, q.x);
    Add(u, q.y, q.x);
    var a, b := Pair(p.x, p.y, t, u);
    var c, d := AddTail(p, q);
    AddEnd(r, a, b, c, d);
  }

  /** (b - a : b + a : d + c : d - c). */
  method AddEnd(r: Ge, a: array<u64>, b: array<u64>, c: array<u64>, d: array<u64>)
    requires r.Shape() && a.Length == 5 && b.Length == 5 && c.Length == 5 && d.Length == 5
    requires a !in r.Repr() && b !in r.Repr() && c !in r.Repr() && d !in r.Repr()
    requires Red(a[..]) && Red(b[..]) && Red(c[..]) && Loose(d[..])
    modifies r.x, r.y, r.z, r.t
    ensures r.AllWide()
    ensures Res(r.x[..]) == FSub(Res(b[..]), Res(a[..])) && Res(r.y[..]) == FAdd(Res(b[..]), Res(a[..]))
    ensures Res(r.z[..]) == FAdd(Res(d[..]), Res(c[..])) && Res(r.t[..]) == FSub(Res(d[..]), Res(c[..]))
  {
    hide FMul;
    hide FAdd;
    hide FSub;
    hide Res;
    hide Red;
    hide Loose;
    hide Wide;
    Sub(r.x, b, a);
    Add(r.y, b, a);
    Add(r.z, d, c);
    SubAfterBasic(r.t, d, c);
  }

  /** 2d T1 T2 and 2 Z1 Z2. */
  method AddTail(p: Ge, q: Ge) returns (c: array<u64>, d: array<u64>)
    requires p.Shape() && q.Shape() && p.AllRed() && q.AllRed()
    ensures fresh(c) && fresh(d) && c != d && c.Length == 5 && d.Length == 5
    ensures Red(c[..]) && Loose(d[..])
    ensures Res(c[..]) == FMul(FMul(Res(p.t[..]), Res(q.t[..])), D2)
    ensures Res(d[..]) == FAdd(FMul(Res(p.z[..]), Res(q.z[..])), FMul(Res(p.z[..]), Res(q.z[..])))
  {
    hide FMul;
    hide FAdd;
    hide FSub;
    hide Res;
    hide Red;
    hide Loose;
    hide Wide;
    c, d := new u64[5], new u64[5];
    var ec2d := Ec2d();
    Mul(c, p.t, q.t);
    Mul(c, c, ec2d);
    Mul(d, p.z, q.z);
    Add(d, d, d);
  }

  /** ge25519_double_p1p1: reads X, Y, Z only, so T may be stale. */
  method DoubleP1P1(r: Ge, p: Ge)
    requires r.Shape() && p.Shape() && r.Repr() !! p.Repr() && p.PartialRed()
    modifies r.x, r.y, r.z, r.t
    ensures r.AllWide() && r.Value() == DoubleCoords(p.Value())
  {
    hide FMul;
    hide FAdd;
    hide FSub;
    hide Res;
    hide Red;
    hide Loose;
    hide Wide;
    var a, b, c := DoubleSquares(p);
    Add(r.x, p.x, p.y);
    Square(r.x, r.x);
    Add(r.y, b, a);
    Sub(r.z, b, a);
    SubAfterBasic(r.x, r.x, r.y);
    SubAfterBasic(r.t, c, r.z);
  }

  /** X^2, Y^2 and 2 Z^2. */
  method DoubleSquares(p: Ge) returns (a: array<u64>, b: array<u64>, c: array<u64>)
    requires p.Shape() && p.PartialRed()
    ensures fresh(a) && fresh(b) && fresh(c) && a != b && a != c && b != c
    ensures a.Length == 5 && b.Length == 5 && c.Length == 5 && Red(a[..]) && Red(b[..]) && Red(c[..])
    ensures Res(a[..]) == FMul(Res(p.x[..]), Res(p.x[..])) && Res(b[..]) == FMul(Res(p.y[..]), Res(p.y[..]))
    ensures Res(c[..]) == FAdd(FMul(Res(p.z[..]), Res(p.z[..])), FMul(Res(p.z[..]), Res(p.z[..])))
  {
    hide FMul;
    hide FAdd;
    hide FSub;
    hide Res;
    hide Red;
    hide Loose;
    hide Wide;
    a, b, c := new u64[5], new u64[5], new u64[5];
    Square(a, p.x);
    Square(b, p.y);
    Square(c, p.z);
    AddReduce(c, c, c);
  }

  /** x = b - a and y = b + a, computed from a copy of b in x. */
  method SumDiff(x: array<u64>, y: array<u64>, a: array<u64>, b: array<u64>)
    requires x.Length == 5 && y.Length == 5 && a.Length == 5 && b.Length == 5
    requires x != y && x != a && y != a && x != b && Red(a[..]) && Red(b[..])
    modifies x, y
    ensures Loose(x[..]) && Loose(y[..])
    ensures Res(x[..]) == FSub(old(Res(b[..])), old(Res(a[..])))
    ensures Res(y[..]) == FAdd(old(Res(b[..])), old(Res(a[..])))
  {
    hide FMul;
    hide FAdd;
    hide FSub;
    hide Res;
    hide Red;
    hide Loose;
    hide Wide;
    Copy(x, b);
    Add(y, x, a);
    Sub(x, x, a);
  }

  /** z = t, then c added to one of them and taken from the other. */
  method SignedTail(r: Ge, c: array<u64>, signbit: bool)
    requires r.Shape() && c.Length == 5 && c !in r.Repr() && Red(r.t[..]) && Red(c[..])
    modifies r.z, r.t
    ensures Wide(r.z[..]) && Wide(r.t[..])
    ensures Res(r.z[..]) == if signbit then FSub(old(Res(r.t[..])), Res(c[..])) else FAdd(old(Res(r.t[..])), Res(c[..]))
    ensures Res(r.t[..]) == if signbit then FAdd(old(Res(r.t[..])), Res(c[..])) else FSub(old(Res(r.t[..])), Res(c[..]))
  {
    hide FMul;
    hide FAdd;
    hide FSub;
    hide Res;
    hide Red;
    hide Loose;
    hide Wide;
    Copy(r.z, r.t);
    var plus, minus := if signbit then r.t else r.z, if signbit then r.z else r.t;
    Add(plus, plus, c);
    Sub(minus, minus, c);
  }

  /** ge25519_nielsadd2_p1p1. */
  method NielsAdd2P1P1(r: Ge, p: Ge, q: Niels, signbit: bool)
    requires r.Shape() && p.Shape() && q.Shape() && r.Repr() !! p.Repr() && r.Repr() !! q.Repr()
    requires p.AllRed() && q.AllWide()
    modifies r.x, r.y, r.z, r.t
    ensures r.AllWide() && r.Value() == NielsSum(p.Value(), q.Value(), signbit)
  {
    hide FMul;
    hide FAdd;
    hide FSub;
    hide Res;
    hide Red;
    hide Loose;
    hide Wide;
    var c := new u64[5];
    var a, b := Pair(p.x, p.y, if signbit then q.xaddy else q.ysubx, if signbit then q.ysubx else q.xaddy);
    SumDiff(r.x, r.y, a, b);
    Mul(c, p.t, q.t2d);
    AddReduce(r.t, p.z, p.z);
    SignedTail(r, c, signbit);
  }

  /** ge25519_pnielsadd_p1p1. */
  method PNielsAddP1P1(r: Ge, p: Ge, q: PNiels, signbit: bool)
    requires r.Shape() && p.Shape() && q.Shape() && r.Repr() !! p.Repr() && r.Repr() !! q.Repr()
    requires p.AllRed() && q.AllWide()
    modifies r.x, r.y, r.z, r.t
    ensures r.AllWide() && r.Value() == PNielsSum(p.Value(), q.Value(), signbit)
  {
    hide FMul;
    hide FAdd;
    hide FSub;
    hide Res;
    hide Red;
    hide Loose;
    hide Wide;
    var c := new u64[5];
    var a, b := Pair(p.x, p.y, if signbit then q.xaddy else q.ysubx, if signbit then q.ysubx else q.xaddy);
    SumDiff(r.x, r.y, a, b);
    Mul(c, p.t, q.t2d);
    Mul(r.t, p.z, q.z);
    AddReduce(r.t, r.t, r.t);
    SignedTail(r, c, signbit);
  }

  /** ge25519_double_partial: `r` may be `p`. T is left as it was. */
  method DoublePartial(r: Ge, p: Ge)
    requires r.Shape() && p.Shape() && p.PartialRed()
    modifies r.x, r.y, r.z
    ensures r.PartialRed()
    ensures r.Value() == ToFull(DoubleCoords(old(p.Value()))).(t := old(r.Value().t))
  {
    hide FMul;
    hide FAdd;
    hide FSub;
    hide Res;
    hide Red;
    hide Loose;
    hide Wide;
    hide ToFull;
    hide DoubleCoords;
    var t := new Ge();
    DoubleP1P1(t, p);
    P1P1ToPartial(r, t);
  }

  /** ge25519_double: `r` may be `p`. */
  method Double(r: Ge, p: Ge)
    requires r.Shape() && p.Shape() && p.PartialRed()
    modifies r.x, r.y, r.z, r.t
    ensures r.AllRed()
    ensures r.Value() == ToFull(DoubleCoords(old(p.Value())))
  {
    hide FMul;
    hide FAdd;
    hide FSub;
    hide Res;
    hide Red;
    hide Loose;
    hide Wide;
    hide ToFull;
    hide DoubleCoords;
    var t := new Ge();
    DoubleP1P1(t, p);
    P1P1ToFull(r, t);
  }

  /** ge25519_add: `r` may be `p` or `q`. */
  method GeAdd(r: Ge, p: Ge, q: Ge)
    requires r.Shape() && p.Shape() && q.Shape() && p.AllRed() && q.AllRed()
    modifies r.x, r.y, r.z, r.t
    ensures r.AllRed()
    ensures r.Value() == ToFull(SumCoords(old(p.Value()), old(q.Value())))
  {
    hide FMul;
    hide FAdd;
    hide FSub;
    hide Res;
    hide Red;
    hide Loose;
    hide Wide;
    hide ToFull;
    hide SumCoords;
    var t := new Ge();
    AddP1P1(t, p, q);
    P1P1ToFull(r, t);
  }

  /** ge25519_nielsadd2: r += q, in place. */
  method NielsAdd2(r: Ge, q: Niels)
    requires r.Shape() && q.Shape() && r.Repr() !! q.Repr() && r.AllRed() && q.AllWide()
    modifies r.x, r.y, r.z, r.t
    ensures r.AllRed()
    ensures r.Value() == ToFull(NielsSum(old(r.Value()), q.Value(), false))
  {
    hide FMul;
    hide FAdd;
    hide FSub;
    hide Res;
    hide Red;
    hide Loose;
    hide Wide;
    hide NielsSum;
    var u := NielsParts(r, q);
    Mul(r.x, u.x, u.t);
    Mul(r.y, u.y, u.z);
    Mul(r.z, u.z, u.t);
    Mul(r.t, u.x, u.y);
  }

  /** The e, h, g, f of the sum, here as x, y, z, t. */
  method NielsParts(p: Ge, q: Niels) returns (u: Ge)
    requires p.Shape() && q.Shape() && p.AllRed() && q.AllWide()
    ensures u.Shape() && fresh(u.x) && fresh(u.y) && fresh(u.z) && fresh(u.t) && u.AllWide()
    ensures u.Value() == NielsSum(p.Value(), q.Value(), false)
  {
    hide FMul;
    hide FAdd;
    hide FSub;
    hide Res;
    hide Red;
    hide Loose;
    hide Wide;
    u := new Ge();
    var c := new u64[5];
    var a, b := Pair(p.x, p.y, q.ysubx, q.xaddy);
    SumDiff(u.x, u.y, a, b);
    Mul(c, p.t, q.t2d);
    Add(u.t, p.z, p.z);
    Add(u.z, u.t, c);
    SubAfterBasic(u.t, u.t, c);
  }

  /** ge25519_pnielsadd: r = p + q in precomputed form. */
  method PNielsAdd(r: PNiels, p: Ge, q: PNiels)
    requires r.Shape() && p.Shape() && q.Shape()
    requires r.Repr() !! p.Repr() && r.Repr() !! q.Repr() && p.AllRed() && q.AllWide()
    modifies r.ysubx, r.xaddy, r.z, r.t2d
    ensures r.AllWide()
    ensures r.Value() == ToPNiels(ToFull(PNielsSum(p.Value(), q.Value(), false)))
  {
    hide FMul;
    hide FAdd;
    hide FSub;
    hide Res;
    hide Red;
    hide Loose;
    hide Wide;
    hide PNielsSum;
    var u := PNielsParts(p, q);
    Mul(r.xaddy, u.x, u.t);
    Mul(r.ysubx, u.y, u.z);
    Mul(r.z, u.z, u.t);
    Mul(r.t2d, u.x, u.y);
    Precompute(r);
  }

  /** From X, Y, Z, T in place to Y - X, X + Y, Z, 2dT. */
  method Precompute(r: PNiels)
    requires r.Shape() && Red(r.xaddy[..]) && Red(r.ysubx[..]) && Red(r.z[..]) && Red(r.t2d[..])
    modifies r.ysubx, r.xaddy, r.t2d
    ensures r.AllWide()
    ensures r.Value() == old(ToPNiels(Coords(Res(r.xaddy[..]), Res(r.ysubx[..]), Res(r.z[..]), Res(r.t2d[..]))))
  {
    hide FMul;
    hide FAdd;
    hide FSub;
    hide Res;
    hide Red;
    hide Loose;
    hide Wide;
    FAddCommute(Res(r.xaddy[..]), Res(r.ysubx[..]));
    var y := new u64[5];
    var ec2d := Ec2d();
    Copy(y, r.ysubx);
    Sub(r.ysubx, r.ysubx, r.xaddy);
    Add(r.xaddy, r.xaddy, y);
    Mul(r.t2d, r.t2d, ec2d);
  }

  /** x, y, z, t of the sum before it is multiplied out. */
  method PNielsParts(p: Ge, q: PNiels) returns (u: Ge)
    requires p.Shape() && q.Shape() && p.AllRed() && q.AllWide()
    ensures u.Shape() && fresh(u.x) && fresh(u.y) && fresh(u.z) && fresh(u.t) && u.AllWide()
    ensures u.Value() == PNielsSum(p.Value(), q.Value(), false)
  {
    hide FMul;
    hide FAdd;
    hide FSub;
    hide Res;
    hide Red;
    hide Loose;
    hide Wide;
    u := new Ge();
    var c := new u64[5];
    var a, b := Pair(p.x, p.y, q.ysubx, q.xaddy);
    SumDiff(u.x, u.y, a, b);
    Mul(c, p.t, q.t2d);
    Mul(u.t, p.z, q.z);
    Add(u.t, u.t, u.t);
    Add(u.z, u.t, c);
    SubAfterBasic(u.t, u.t, c);
  }
}
