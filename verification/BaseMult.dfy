/**
 ge25519_scalarmult_base_niels: [s]B from a table of 32 x 8 packed points and a signed radix-16 recoding,
 with the portable constant-time table lookup.
 */
module BaseMult {
  import opened Numbers
  import opened Bytes
  import opened Scalars
  import opened Recoding
  import opened Field25519
  import opened FieldBytes
  import opened Groups
  import opened EdwardsLaw
  import opened EdwardsFormulas
  import opened ScalarMult

  // ---------- masks ----------

  /** `mask & x` for a mask that is all zeros or all ones. */
  function Masked(mask: nat, x: nat): nat {
    if mask == 0 then 0 else x
  }

  lemma {:induction false} XorAllOnes(x: nat, k: nat)
    requires x < Pow2(k)
    ensures Xor(x, Pow2(k) - 1) == Pow2(k) - 1 - x
  {
    if k > 0 {
      XorAllOnes(x / 2, k - 1);
      XorOnesStep(x, Pow2(k - 1));
      hide Xor;
    }
  }

  lemma XorOnesStep(x: nat, p: nat)
    requires p > 0 && Xor(x / 2, p - 1) == p - 1 - x / 2
    ensures Xor(x, 2 * p - 1) == 2 * p - 1 - x
  {
    hide Xor;
    BitSteps(x, 2 * p - 1);
    assert (2 * p - 1) / 2 == p - 1;
  }

  /** ge25519_windowb_equal: `((b ^ c) - 1) >> 31` on 32-bit words. */
  function WindowEqual(b: nat, c: nat): nat {
    ((Xor(b, c) + 0xffff_ffff) % 0x1_0000_0000) / 0x8000_0000
  }

  lemma WindowEqualIs(b: nat, c: nat)
    requires b < 16 && c < 16
    ensures WindowEqual(b, c) == if b == c then 1 else 0
  {
    assert Pow2(4) == 16;
    BitBounds(b, c, 4);
    XorNull(b, c);
  }

  /** The magnitude of a signed digit as a 32-bit word. */
  function Magnitude(b: int, sign: nat): nat {
    var mask := if sign == 1 then 0xffff_ffff else 0;
    Xor((b + mask) % 0x1_0000_0000, mask)
  }

  lemma MagnitudeIs(b: int)
    requires -8 <= b <= 8
    ensures Magnitude(b, if b < 0 then 1 else 0) == Abs(b)
  {
    Pow2Bytes();
    if b < 0 {
      assert (b + 0xffff_ffff) % 0x1_0000_0000 == 0x1_0000_0000 - 1 + b;
      XorAllOnes(0x1_0000_0000 - 1 + b, 32);
    } else {
      assert Xor(b, 0) == b;
    }
  }

  /** curve25519_move_conditional_bytes: `out` becomes `input` when the flag is 1, and stays when it is 0. */
  method MoveConditional(out: array<u8>, input: seq<u8>, flag: nat)
    requires out.Length == 96 && |input| == 96 && flag <= 1
    modifies out
    ensures out[..] == if flag == 1 then input else old(out[..])
  {
    var nb: u64 := if flag == 1 then 0 else 0x1_0000_0000_0000_0000 - 1;
    var b: u64 := 0x1_0000_0000_0000_0000 - 1 - nb;
    ghost var o: seq<u8> := out[..];
    var i := 0;
    while i < 96
      invariant 0 <= i <= 96
      invariant forall k :: 0 <= k < i ==> out[k] == if flag == 1 then input[k] else o[k]
      invariant forall k :: i <= k < 96 ==> out[k] == o[k]
    {
      OrZero(out[i]);
      OrZero(input[i]);
      out[i] := Or(Masked(nb, out[i]), Masked(b, input[i]));
      i := i + 1;
    }
  }

  lemma OrZero(x: nat)
    ensures Or(x, 0) == x && Or(0, x) == x
  {
  }

  /** curve25519_swap_conditional. */
  method SwapConditional(a: array<u64>, b: array<u64>, iswap: nat)
    requires a.Length == 5 && b.Length == 5 && a != b && iswap <= 1
    modifies a, b
    ensures a[..] == if iswap == 1 then old(b[..]) else old(a[..])
    ensures b[..] == if iswap == 1 then old(a[..]) else old(b[..])
  {
    hide Xor;
    var swap: u64 := if iswap == 1 then 0x1_0000_0000_0000_0000 - 1 else 0;
    var i := 0;
    ghost var x: seq<u64>, y: seq<u64> := a[..], b[..];
    while i < 5
      invariant 0 <= i <= 5
      invariant forall k ::
          0 <= k < i ==> a[k] == (if iswap == 1 then y[k] else x[k]) && b[k] == (if iswap == 1 then x[k] else y[k])
      invariant forall k :: i <= k < 5 ==> a[k] == x[k] && b[k] == y[k]
    {
      XorSwap(a[i], b[i]);
      var w := Masked(swap, Xor(a[i], b[i]));
      a[i] := Xor(a[i], w);
      b[i] := Xor(b[i], w);
      i := i + 1;
    }
  }

  lemma XorSwap(x: nat, y: nat)
    ensures Xor(x, Xor(x, y)) == y && Xor(y, Xor(x, y)) == x
    ensures Xor(x, 0) == x && Xor(y, 0) == y
  {
    XorSelf(x, y);
    XorSelf(y, x);
    XorCommute(x, y);
  }

  lemma {:induction false} XorCommute(x: nat, y: nat)
    ensures Xor(x, y) == Xor(y, x)
  {
    if x != 0 && y != 0 {
      XorCommute(x / 2, y / 2);
    }
  }

  // ---------- the packed table ----------

  /** The residue packed in 32 bytes. */
  function PackedRes(b: seq<u8>): int {
    Mod(LE(b) % 0x8000_0000_0000_0000_0000_0000_0000_0000_0000_0000_0000_0000_0000_0000_0000_0000)
  }

  function RowRes(row: seq<u8>): NielsRes
    requires |row| == 96
  {
    NielsRes(PackedRes(row[..32]), PackedRes(row[32..64]), PackedRes(row[64..]))
  }

  /** Rows 0..7 hold 2xy where all others hold 2dxy. */
  function RowScale(pos: nat): int {
    if pos == 0 then 1 else D
  }

  /** ge25519_niels_base_multiples: row 8k + u - 1 is u 256^k b. */
  ghost predicate BaseMultiples(table: seq<seq<u8>>, b: CurvePoint) {
    Rows(table) && forall k: nat, u: nat :: k < 32 && 1 <= u <= 8 ==> IsRow(table, k, u, b)
  }

  predicate Rows(table: seq<seq<u8>>) {
    |table| == 256 && forall i :: 0 <= i < 256 ==> |table[i]| == 96
  }

  ghost predicate IsRow(table: seq<seq<u8>>, k: nat, u: nat, b: CurvePoint)
    requires Rows(table) && k < 32 && u <= 8
  {
    IsScaledNiels(RowRes(RowFor(table, k, u)), Times(u * Pow(0x100, k), b), RowScale(k))
  }

  /** The row for the magnitude u at place pos. */
  function RowFor(table: seq<seq<u8>>, pos: nat, u: nat): (row: seq<u8>)
    requires Rows(table) && pos < 32 && u <= 8
    ensures |row| == 96
  {
    if u == 0 then NeutralRow() else table[pos * 8 + u - 1]
  }

  /** The row for digit 0: 1, 1, 0. */
  function NeutralRow(): (row: seq<u8>)
    ensures |row| == 96
  {
    seq(96, i => if i == 0 || i == 32 then 1 else 0)
  }

  lemma UnitBytes(b: seq<u8>)
    requires |b| > 0 && b[0] <= 1 && forall i :: 0 < i < |b| ==> b[i] == 0
    ensures LE(b) == b[0] && PackedRes(b) == b[0]
  {
    EvalZeros(0x100, b[1..]);
  }

  lemma NeutralRowIs(k: int, b: CurvePoint)
    requires CurveLaws()
    ensures IsScaledNiels(RowRes(NeutralRow()), Times(0, b), k)
  {
    hide CurveLaws;
    hide PackedRes;
    hide FMul;
    hide LE;
    hide EAdd;
    hide ENeg;
    var row := NeutralRow();
    UnitBytes(row[..32]);
    UnitBytes(row[32..64]);
    UnitBytes(row[64..]);
    assert Times(0, b) == Point(0, 1);
    FMulOne(0);
    FMulZero(FAdd(k, k));
  }

  /** The row for |b|, picked without branching on it. */
  method SelectRow(table: seq<seq<u8>>, pos: nat, u: nat) returns (packed: array<u8>)
    requires Rows(table) && pos < 32 && u <= 8
    ensures fresh(packed) && packed.Length == 96
    ensures packed[..] == RowFor(table, pos, u)
  {
    hide WindowEqual;
    packed := new u8[96](i => 0);
    packed[0] := 1;
    packed[32] := 1;
    assert packed[..] == NeutralRow();
    var i: nat := 0;
    while i < 8
      invariant 0 <= i <= 8
      invariant packed[..] == RowFor(table, pos, if u <= i then u else 0)
    {
      WindowEqualIs(u, i + 1);
      MoveConditional(packed, table[pos * 8 + i], WindowEqual(u, i + 1));
      i := i + 1;
    }
  }

  /** The row expanded, and negated when the digit is negative. */
  method Unpack(t: Niels, packed: array<u8>, sign: nat)
    requires t.Shape() && packed.Length == 96 && sign <= 1
    modifies t.ysubx, t.xaddy, t.t2d
    ensures t.AllRed() && t.AllWide()
    ensures t.Value() == if sign == 1 then NegNiels(RowRes(packed[..])) else RowRes(packed[..])
  {
    hide FSub;
    hide LE;
    hide FV;
    var neg := new u64[5];
    ghost var row: seq<u8> := packed[..];
    assert packed[..32] == row[..32] && packed[32..64] == row[32..64] && packed[64..] == row[64..];
    Expand(t.ysubx, packed[..32]);
    Expand(t.xaddy, packed[32..64]);
    Expand(t.t2d, packed[64..]);
    SwapConditional(t.ysubx, t.xaddy, sign);
    Neg(neg, t.t2d);
    SwapConditional(t.t2d, neg, sign);
  }

  /** ge25519_scalarmult_base_choose_niels: t = [d * 256^pos]b for a digit d in [-8, 8]. */
  method ChooseNiels(t: Niels, table: seq<seq<u8>>, pos: nat, d: i8, ghost b: CurvePoint)
    requires CurveLaws() && t.Shape() && BaseMultiples(table, b) && pos < 32 && -8 <= d <= 8
    modifies t.ysubx, t.xaddy, t.t2d
    ensures t.AllRed() && t.AllWide()
    ensures IsScaledNiels(t.Value(), Times(d * Pow(0x100, pos), b), RowScale(pos))
  {
    hide CurveLaws;
    hide OnCurve;
    hide IsScaledNiels;
    hide Magnitude;
    hide Res;
    hide RowRes;
    hide Times;
    var sign: nat := if d < 0 then 1 else 0;
    var u := Magnitude(d, sign);
    MagnitudeIs(d);
    var packed := SelectRow(table, pos, u);
    ChosenRow(table, pos, d, b);
    Unpack(t, packed, sign);
  }

  lemma ChosenRow(table: seq<seq<u8>>, pos: nat, d: int, b: CurvePoint)
    requires CurveLaws() && BaseMultiples(table, b) && pos < 32 && -8 <= d <= 8
    ensures var n := RowRes(RowFor(table, pos, Abs(d)));
      IsScaledNiels(if d < 0 then NegNiels(n) else n, Times(d * Pow(0x100, pos), b), RowScale(pos))
  {
    hide CurveLaws;
    hide OnCurve;
    hide IsScaledNiels;
    hide NeutralRow;
    hide RowRes;
    hide NegNiels;
    hide Times;
    hide RowScale;
    hide Pow;
    var w := Pow(0x100, pos);
    if d == 0 {
      NeutralRowIs(RowScale(pos), b);
      assert 0 * w == 0;
    } else {
      assert IsRow(table, pos, Abs(d), b);
      if d < 0 {
        NegatedRow(RowRes(RowFor(table, pos, Abs(d))), Abs(d), w, RowScale(pos), b);
      }
    }
  }

  lemma NegatedRow(n: NielsRes, u: int, w: int, k: int, b: CurvePoint)
    requires CurveLaws() && IsScaledNiels(n, Times(u * w, b), k)
    ensures IsScaledNiels(NegNiels(n), Times(-u * w, b), k)
  {
    hide CurveLaws;
    hide OnCurve;
    hide IsScaledNiels;
    hide Times;
    NegNielsIsNeg(n, Times(u * w, b), k);
    NegTimes(u * w, b);
    assert -(u * w) == -u * w;
  }

  lemma NegTimes(n: int, b: CurvePoint)
    requires CurveLaws()
    ensures ENeg(Times(n, b)) == Times(-n, b)
  {
    hide CurveLaws;
    hide IsAbelian;
    hide EdwardsGroup;
    hide ENeg;
    hide Groups.Mul;
    GroupIsAbelian();
    PlusIs(Times(n, b), b);
    MulNeg(EdwardsGroup(), n, b);
  }

  // ---------- the two passes over the digits ----------

  /** The digits at even or odd places, in base 256. */
  function Half(d: seq<int>, start: nat, n: nat): int
    requires start + 2 * n <= |d| + 1
  {
    if n == 0 then 0 else Half(d, start, n - 1) + d[2 * (n - 1) + start] * Pow(0x100, n - 1)
  }

  lemma {:induction false} PowSquare(n: nat)
    ensures Pow(16, 2 * n) == Pow(0x100, n)
  {
    if n > 0 {
      PowSquare(n - 1);
      assert Pow(16, 2 * n) == 16 * (16 * Pow(16, 2 * (n - 1)));
    }
  }

  lemma {:induction false} EvalHalves(d: seq<int>, n: nat)
    requires 2 * n <= |d|
    ensures Eval(16, d[..2 * n]) == Half(d, 0, n) + 16 * Half(d, 1, n)
  {
    if n > 0 {
      EvalHalves(d, n - 1);
      PowSquare(n - 1);
      var e, w := d[..2 * (n - 1)], Pow(0x100, n - 1);
      var x, y := d[2 * (n - 1)], d[2 * (n - 1) + 1];
      EvalAppend(16, e, [x, y]);
      assert d[..2 * n] == e + [x, y];
      assert [x, y][1..] == [y];
      EvalOne(16, y);
      assert w * (x + 16 * y) == x * w + 16 * (y * w);
    } else {
      assert d[..0] == [];
    }
  }

  /** The first odd digit's point, with Z = 2. */
  method FirstPoint(r: Ge, t: Niels, ghost q: CurvePoint)
    requires r.Shape() && t.Shape() && r.Repr() !! t.Repr() && t.AllRed() && IsScaledNiels(t.Value(), q, 1)
    modifies r.x, r.y, r.z, r.t
    ensures r.AllRed() && IsFull(r.Value(), q)
  {
    hide FSub;
    hide FAdd;
    FirstCoords(t.Value(), q);
    SubReduce(r.x, t.xaddy, t.ysubx);
    AddReduce(r.y, t.xaddy, t.ysubx);
    r.z[0], r.z[1], r.z[2], r.z[3], r.z[4] := 2, 0, 0, 0, 0;
    Copy(r.t, t.t2d);
  }

  lemma FirstCoords(n: NielsRes, p: Point)
    requires IsScaledNiels(n, p, 1)
    ensures FSub(n.xaddy, n.ysubx) == FMul(p.x, 2)
    ensures FAdd(n.xaddy, n.ysubx) == FMul(p.y, 2)
    ensures n.t2d == FMul(FMul(p.x, p.y), 2)
  {
    ResidueOfSum(p.y + p.x, p.y - p.x);
    FMulIs(p.x, 2);
    FMulIs(p.y, 2);
    FMulCommute(FMul(p.x, p.y), 2);
    hide FMul;
    ModOnce(p.y + p.x);
  }

  /** Adding a precomputed point to a full one in place. */
  method AddInPlace(r: Ge, t: Niels, ghost p: CurvePoint, ghost q: CurvePoint)
    requires CurveLaws() && r.Shape() && t.Shape() && r.Repr() !! t.Repr() && r.AllRed() && t.AllWide()
    requires IsFull(r.Value(), p) && IsNiels(t.Value(), q)
    modifies r.x, r.y, r.z, r.t
    ensures r.AllRed() && IsFull(r.Value(), Plus(p, q))
  {
    hide CurveLaws;
    hide OnCurve;
    hide IsFull;
    hide IsP1P1;
    hide IsNiels;
    hide ToFull;
    hide NielsSum;
    hide EAdd;
    hide Res;
    NielsAdds(r.Value(), t.Value(), p, q, false);
    ToFullKeepsPoint(NielsSum(r.Value(), t.Value(), false), EAdd(p, q));
    PlusIs(p, q);
    hide Plus;
    NielsAdd2(r, t);
  }

  lemma TimesPlus(n: int, m: int, b: CurvePoint)
    requires CurveLaws()
    ensures Plus(Times(n, b), Times(m, b)) == Times(n + m, b)
  {
    hide CurveLaws;
    hide IsAbelian;
    hide EdwardsGroup;
    hide Groups.Mul;
    GroupIsAbelian();
    MulAdd(EdwardsGroup(), n, m, b);
  }

  /** One pass over the digits at places start, start + 2, ... */
  method AddDigits(r: Ge, table: seq<seq<u8>>, d: array<i8>, from: nat, start: nat, ghost acc: int, ghost b: CurvePoint)
    requires CurveLaws() && r.Shape() && BaseMultiples(table, b)
    requires d.Length == 64 && start <= 1 && from == start + 2
    requires forall k :: 0 <= k < 64 ==> -8 <= d[k] <= 8
    requires r.AllRed() && IsFull(r.Value(), Times(acc + Half(d[..], start, 1), b))
    modifies r.x, r.y, r.z, r.t
    ensures r.AllRed() && IsFull(r.Value(), Times(acc + Half(d[..], start, 32), b))
  {
    hide CurveLaws;
    hide OnCurve;
    hide BaseMultiples;
    hide IsFull;
    hide IsNiels;
    hide Res;
    hide Times;
    hide Plus;
    hide Half;
    var t := new Niels();
    ghost var e: seq<int> := d[..];
    var i := from;
    while i < 64
      invariant from <= i <= 65 && i % 2 == start
      invariant r.AllRed() && IsFull(r.Value(), Times(acc + Half(e, start, i / 2), b))
      invariant d[..] == e
    {
      ghost var k := i / 2;
      assert e[2 * k + start] == d[i];
      HalfStep(e, start, k);
      ChooseNiels(t, table, i / 2, d[i], b);
      LaterRows(t.Value(), Times(d[i] * Pow(0x100, k), b), k);
      AddInPlace(r, t, Times(acc + Half(e, start, k), b), Times(d[i] * Pow(0x100, k), b));
      TimesPlus(acc + Half(e, start, k), d[i] * Pow(0x100, k), b);
      i := i + 2;
    }
  }

  lemma HalfStep(d: seq<int>, start: nat, n: nat)
    requires start + 2 * n < |d|
    ensures Half(d, start, n + 1) == Half(d, start, n) + d[2 * n + start] * Pow(0x100, n)
  {
  }

  lemma LaterRows(n: NielsRes, q: Point, k: nat)
    requires k > 0 && IsScaledNiels(n, q, RowScale(k))
    ensures IsNiels(n, q)
  {
  }

  /** One doubling that leaves T stale. */
  method DoubleStale(r: Ge, ghost n: int, ghost b: CurvePoint)
    requires CurveLaws() && r.Shape() && r.PartialRed() && IsPartial(r.Value(), Times(n, b))
    modifies r.x, r.y, r.z
    ensures r.PartialRed() && IsPartial(r.Value(), Times(2 * n, b))
  {
    hide CurveLaws;
    hide OnCurve;
    hide IsPartial;
    hide IsP1P1;
    hide ToFull;
    hide DoubleCoords;
    hide EAdd;
    hide Res;
    hide Times;
    TwiceTimes(n, b);
    DoubleIsDouble(r.Value(), Times(n, b));
    PartialOf(DoubleCoords(r.Value()), r.Value().t, Times(2 * n, b));
    DoublePartial(r, r);
  }

  lemma TwiceTimes(n: int, b: CurvePoint)
    requires CurveLaws()
    ensures EAdd(Times(n, b), Times(n, b)) == Times(2 * n, b)
  {
    hide CurveLaws;
    hide OnCurve;
    hide EAdd;
    hide ENeg;
    hide Times;
    hide Plus;
    TimesPlus(n, n, b);
    PlusIs(Times(n, b), Times(n, b));
  }

  /** Three partial doublings and a full one. */
  method Times16(r: Ge, ghost n: int, ghost b: CurvePoint)
    requires CurveLaws() && r.Shape() && r.AllRed() && IsFull(r.Value(), Times(n, b))
    modifies r.x, r.y, r.z, r.t
    ensures r.AllRed() && IsFull(r.Value(), Times(16 * n, b))
  {
    hide CurveLaws;
    hide OnCurve;
    hide IsPartial;
    hide IsFull;
    hide ToFull;
    hide DoubleCoords;
    hide EAdd;
    hide Res;
    hide Times;
    FullIsPartial(r.Value(), Times(n, b));
    DoubleStale(r, n, b);
    DoubleStale(r, 2 * n, b);
    DoubleStale(r, 4 * n, b);
    DoubleFull(r.Value(), Times(8 * n, b));
    TwiceTimes(8 * n, b);
    Double(r, r);
  }

  /** In row 0 the factor d is still to be multiplied in. */
  method ScaleByD(t: Niels, ghost q: CurvePoint)
    requires t.Shape() && t.AllRed() && IsScaledNiels(t.Value(), q, 1)
    modifies t.t2d
    ensures t.AllWide() && IsNiels(t.Value(), q)
  {
    hide FMul;
    var ecd := Ecd();
    ScaledByD(FMul(q.x, q.y));
    Field25519.Mul(t.t2d, t.t2d, ecd);
  }

  lemma ScaledByD(w: int)
    ensures FMul(FMul(FAdd(1, 1), w), D) == FMul(FAdd(D, D), w)
  {
    hide FMul;
    MulSwap(FAdd(1, 1), w, D);
    Dist(1, 1, D);
    FMulOne(D);
  }

  /** The digits at odd places, r = [sum of d[2k + 1] 256^k]b. */
  method OddHalf(r: Ge, t: Niels, table: seq<seq<u8>>, d: array<i8>, ghost b: CurvePoint)
    requires CurveLaws() && r.Shape() && t.Shape() && r.Repr() !! t.Repr() && BaseMultiples(table, b)
    requires d.Length == 64 && forall k :: 0 <= k < 64 ==> -8 <= d[k] <= 8
    modifies r.x, r.y, r.z, r.t, t.ysubx, t.xaddy, t.t2d
    ensures r.AllRed() && IsFull(r.Value(), Times(Half(d[..], 1, 32), b))
  {
    hide CurveLaws;
    hide OnCurve;
    hide BaseMultiples;
    hide IsFull;
    hide IsNiels;
    hide IsScaledNiels;
    hide Res;
    hide Times;
    hide Half;
    ghost var e: seq<int> := d[..];
    FirstDigits(e);
    ChooseNiels(t, table, 0, d[1], b);
    FirstPoint(r, t, Times(d[1] * Pow(0x100, 0), b));
    AddDigits(r, table, d, 3, 1, 0, b);
  }

  /** The digits at even places on top of [acc]b. */
  method EvenHalf(r: Ge, t: Niels, table: seq<seq<u8>>, d: array<i8>, ghost acc: int, ghost b: CurvePoint)
    requires CurveLaws() && r.Shape() && t.Shape() && r.Repr() !! t.Repr() && BaseMultiples(table, b)
    requires d.Length == 64 && forall k :: 0 <= k < 64 ==> -8 <= d[k] <= 8
    requires r.AllRed() && IsFull(r.Value(), Times(acc, b))
    modifies r.x, r.y, r.z, r.t, t.ysubx, t.xaddy, t.t2d
    ensures r.AllRed() && IsFull(r.Value(), Times(acc + Half(d[..], 0, 32), b))
  {
    hide CurveLaws;
    hide OnCurve;
    hide BaseMultiples;
    hide IsFull;
    hide IsNiels;
    hide IsScaledNiels;
    hide Res;
    hide Times;
    hide Plus;
    hide Half;
    ghost var e: seq<int> := d[..];
    FirstDigits(e);
    ghost var first := d[0] * Pow(0x100, 0);
    ChooseNiels(t, table, 0, d[0], b);
    ScaleByD(t, Times(first, b));
    TimesPlus(acc, first, b);
    AddInPlace(r, t, Times(acc, b), Times(first, b));
    AddDigits(r, table, d, 2, 0, acc, b);
  }

  /** ge25519_scalarmult_base_niels: r = [s]b for every s below 2^255, with T fresh. */
  method ScalarmultBase(r: Ge, table: seq<seq<u8>>, s: array<u64>, ghost b: CurvePoint)
    requires CurveLaws() && r.Shape() && BaseMultiples(table, b) && s !in r.Repr()
    requires s.Length == 5 && Limbs(s[..], 0x1_0000_0000) && Val(s[..]) < TWO255
    modifies r.x, r.y, r.z, r.t
    ensures r.AllRed() && IsFull(r.Value(), Times(Val(s[..]), b))
  {
    hide CurveLaws;
    hide OnCurve;
    hide BaseMultiples;
    hide IsFull;
    hide Res;
    hide Times;
    hide Half;
    hide Val;
    hide Eval;
    hide Red;
    hide Limbs;
    var d := new i8[64];
    Window4(d, s);
    AllDigits(d[..]);
    var t := new Niels();
    OddHalf(r, t, table, d, b);
    ghost var odd := Half(d[..], 1, 32);
    Times16(r, odd, b);
    EvenHalf(r, t, table, d, 16 * odd, b);
  }

  lemma AllDigits(d: seq<int>)
    requires |d| == 64
    ensures Eval(16, d) == Half(d, 0, 32) + 16 * Half(d, 1, 32)
  {
    EvalHalves(d, 32);
    assert d[..64] == d;
  }

  lemma FirstDigits(d: seq<int>)
    requires |d| == 64
    ensures Half(d, 0, 1) == d[0] * Pow(0x100, 0) && Half(d, 1, 1) == d[1] * Pow(0x100, 0)
  {
    assert Half(d, 0, 1) == Half(d, 0, 0) + d[0] * Pow(0x100, 0);
    assert Half(d, 1, 1) == Half(d, 1, 0) + d[1] * Pow(0x100, 0);
  }
}
