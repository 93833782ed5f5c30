/**
 The 32-bit field code (curve25519-donna-32bit.h): ten limbs of 26 and 25 bits by turns. Its even and odd limbs are
 two numbers of five 51-bit places, which ties its products to the five-limb code and its bytes to the same residue.
 */
module Field32 {
  import opened Numbers
  import opened Bytes
  import opened Field25519
  import FieldBytes

  type u32 = x: int | 0 <= x < 0x1_0000_0000

  /** Limbs 0, 2, 4, 6, 8. */
  function Evens(s: seq<int>): (e: seq<int>)
    requires |s| == 10
    ensures |e| == 5
  {
    [s[0], s[2], s[4], s[6], s[8]]
  }

  /** Limbs 1, 3, 5, 7, 9. */
  function Odds(s: seq<int>): (o: seq<int>)
    requires |s| == 10
    ensures |o| == 5
  {
    [s[1], s[3], s[5], s[7], s[9]]
  }

  /** The number in ten limbs at bits 0, 26, 51, 77, 102, 128, 153, 179, 204 and 230. */
  function TV(s: seq<int>): int
    requires |s| == 10
  {
    FV(Evens(s)) + 0x400_0000 * FV(Odds(s))
  }

  /** Its residue. */
  function TRes(s: seq<int>): int
    requires |s| == 10
  {
    Mod(TV(s))
  }

  /** Even limbs below e, odd ones below o. */
  predicate Limits(s: seq<int>, e: int, o: int) {
    |s| == 10 && Below([s[0], s[2], s[4], s[6], s[8]], e) && Below([s[1], s[3], s[5], s[7], s[9]], o)
  }

  // ---------- multiplication ----------

  /** Column k of the product: the even-even and odd-odd products meet in the even columns. */
  function TenColumn(a: seq<int>, b: seq<int>, k: nat): int
    requires |a| == 10 && |b| == 10 && k < 10
  {
    if k % 2 == 1 then Folded(Evens(a), Odds(b), k / 2) + Folded(Odds(a), Evens(b), k / 2)
    else if k == 0 then Folded(Evens(a), Evens(b), 0) + 38 * Folded(Odds(a), Odds(b), 4)
    else Folded(Evens(a), Evens(b), k / 2) + 2 * Folded(Odds(a), Odds(b), k / 2 - 1)
  }

  function TenColumns(a: seq<int>, b: seq<int>): (m: seq<int>)
    requires |a| == 10 && |b| == 10
    ensures |m| == 10
  {
    [TenColumn(a, b, 0), TenColumn(a, b, 1), TenColumn(a, b, 2), TenColumn(a, b, 3), TenColumn(a, b, 4),
     TenColumn(a, b, 5), TenColumn(a, b, 6), TenColumn(a, b, 7), TenColumn(a, b, 8), TenColumn(a, b, 9)]
  }

  /** Five folded columns. */
  function Five(a: seq<int>, b: seq<int>): (f: seq<int>)
    requires |a| == 5 && |b| == 5
    ensures |f| == 5
  {
    [Folded(a, b, 0), Folded(a, b, 1), Folded(a, b, 2), Folded(a, b, 3), Folded(a, b, 4)]
  }

  /** Two odd limbs are one bit above a place: 2^52 = 2 * 2^51, and the top place comes back times 19. */
  lemma OddOdd(c: seq<int>)
    requires |c| == 5
    ensures 0x10_0000_0000_0000 * FV(c) == FV([38 * c[4], 2 * c[0], 2 * c[1], 2 * c[2], 2 * c[3]]) + TimesP(2 * c[4])
  {
  }

  /** The columns hold the product modulo p. */
  lemma TenColumnsValue(a: seq<int>, b: seq<int>) returns (k: int)
    requires |a| == 10 && |b| == 10
    ensures TV(a) * TV(b) == TV(TenColumns(a, b)) + TimesP(k)
  {
    hide Folded;
    hide FV;
    var ea, oa, eb, ob := Evens(a), Odds(a), Evens(b), Odds(b);
    var k0 := FoldedValue(ea, eb);
    var k1 := FoldedValue(ea, ob);
    var k2 := FoldedValue(oa, eb);
    var k3 := FoldedValue(oa, ob);
    CrossTerms(FV(ea), FV(oa), FV(eb), FV(ob));
    OddOdd(Five(oa, ob));
    var shifted := [38 * Five(oa, ob)[4], 2 * Five(oa, ob)[0], 2 * Five(oa, ob)[1], 2 * Five(oa, ob)[2],
        2 * Five(oa, ob)[3]];
    AddPlaces(Five(ea, eb), shifted, Evens(TenColumns(a, b)));
    AddPlaces(Five(ea, ob), Five(oa, eb), Odds(TenColumns(a, b)));
    k := k0 + 0x400_0000 * k1 + 0x400_0000 * k2 + 0x10_0000_0000_0000 * k3 + 2 * Five(oa, ob)[4];
  }

  lemma CrossTerms(x: int, y: int, z: int, w: int)
    ensures (x + 0x400_0000 * y) * (z + 0x400_0000 * w)
        == x * z + 0x400_0000 * (x * w) + 0x400_0000 * (y * z) + 0x10_0000_0000_0000 * (y * w)
  {
    assert (x + 0x400_0000 * y) * z == x * z + 0x400_0000 * (y * z);
    assert (x + 0x400_0000 * y) * (0x400_0000 * w) == 0x400_0000 * (x * w) + 0x10_0000_0000_0000 * (y * w);
  }

  lemma AddPlaces(x: seq<int>, y: seq<int>, s: seq<int>)
    requires |x| == 5 && |y| == 5 && |s| == 5 && forall i :: 0 <= i < 5 ==> s[i] == x[i] + y[i]
    ensures FV(s) == FV(x) + FV(y)
  {
  }

  /** The first factor as the code scales it in place: d has the odd limbs doubled, n limbs 2 to 9 times 19, e both. */
  predicate AreScaled(r: seq<int>, d: seq<int>, n: seq<int>, e: seq<int>) {
    && |r| == 10 && |d| == 10 && |n| == 10 && |e| == 10
    && d[1] == 2 * r[1] && d[3] == 2 * r[3] && d[5] == 2 * r[5] && d[7] == 2 * r[7]
    && e[1] == 38 * r[1] && e[3] == 38 * r[3] && e[5] == 38 * r[5] && e[7] == 38 * r[7] && e[9] == 38 * r[9]
    && forall i :: 2 <= i < 10 ==> n[i] == 19 * r[i]
  }

  /** A scaled factor scales the product. */
  lemma ScaledTimes(m: int, x: int, y: int, c: int)
    requires m == c * x
    ensures m * y == c * (x * y)
  {
    assert (c * x) * y == c * (x * y);
  }

  lemma AllScaled(r: seq<int>, d: seq<int>, n: seq<int>, e: seq<int>, s: seq<int>)
    requires AreScaled(r, d, n, e) && |s| == 10
    ensures forall i, j :: i in {1, 3, 5, 7} && 0 <= j < 10 ==> d[i] * s[j] == 2 * (r[i] * s[j])
    ensures forall i, j :: i in {1, 3, 5, 7, 9} && 0 <= j < 10 ==> e[i] * s[j] == 38 * (r[i] * s[j])
    ensures forall i, j :: 2 <= i < 10 && 0 <= j < 10 ==> n[i] * s[j] == 19 * (r[i] * s[j])
  {
    forall i, j | i in {1, 3, 5, 7} && 0 <= j < 10
      ensures d[i] * s[j] == 2 * (r[i] * s[j])
    {
      ScaledTimes(d[i], r[i], s[j], 2);
    }
    forall i, j | i in {1, 3, 5, 7, 9} && 0 <= j < 10
      ensures e[i] * s[j] == 38 * (r[i] * s[j])
    {
      ScaledTimes(e[i], r[i], s[j], 38);
    }
    forall i, j | 2 <= i < 10 && 0 <= j < 10
      ensures n[i] * s[j] == 19 * (r[i] * s[j])
    {
      ScaledTimes(n[i], r[i], s[j], 19);
    }
  }

  /** The even column sums as the code forms them. */
  lemma EvenSums(r: seq<int>, d: seq<int>, n: seq<int>, e: seq<int>, s: seq<int>)
    requires AreScaled(r, d, n, e) && |s| == 10
    ensures r[0] * s[0] + e[9] * s[1] + n[8] * s[2] + e[7] * s[3] + n[6] * s[4] + e[5] * s[5] + n[4] * s[6] +
            e[3] * s[7] + n[2] * s[8] + e[1] * s[9]
            == TenColumn(r, s, 0)
    ensures r[0] * s[2] + d[1] * s[1] + r[2] * s[0] + e[9] * s[3] + n[8] * s[4] + e[7] * s[5] + n[6] * s[6] +
            e[5] * s[7] + n[4] * s[8] + e[3] * s[9]
            == TenColumn(r, s, 2)
    ensures r[0] * s[4] + d[1] * s[3] + r[2] * s[2] + d[3] * s[1] + r[4] * s[0] + e[9] * s[5] + n[8] * s[6] +
            e[7] * s[7] + n[6] * s[8] + e[5] * s[9]
            == TenColumn(r, s, 4)
    ensures r[0] * s[6] + d[1] * s[5] + r[2] * s[4] + d[3] * s[3] + r[4] * s[2] + d[5] * s[1] + r[6] * s[0] +
            e[9] * s[7] + n[8] * s[8] + e[7] * s[9]
            == TenColumn(r, s, 6)
    ensures r[0] * s[8] + d[1] * s[7] + r[2] * s[6] + d[3] * s[5] + r[4] * s[4] + d[5] * s[3] + r[6] * s[2] +
            d[7] * s[1] + r[8] * s[0] + e[9] * s[9]
            == TenColumn(r, s, 8)
  {
    AllScaled(r, d, n, e, s);
  }

  /** The odd column sums. */
  lemma OddSums(r: seq<int>, d: seq<int>, n: seq<int>, e: seq<int>, s: seq<int>)
    requires AreScaled(r, d, n, e) && |s| == 10
    ensures r[0] * s[1] + r[1] * s[0] + n[9] * s[2] + n[8] * s[3] + n[7] * s[4] + n[6] * s[5] + n[5] * s[6] +
            n[4] * s[7] + n[3] * s[8] + n[2] * s[9]
            == TenColumn(r, s, 1)
    ensures r[0] * s[3] + r[1] * s[2] + r[2] * s[1] + r[3] * s[0] + n[9] * s[4] + n[8] * s[5] + n[7] * s[6] +
            n[6] * s[7] + n[5] * s[8] + n[4] * s[9]
            == TenColumn(r, s, 3)
    ensures r[0] * s[5] + r[1] * s[4] + r[2] * s[3] + r[3] * s[2] + r[4] * s[1] + r[5] * s[0] + n[9] * s[6] +
            n[8] * s[7] + n[7] * s[8] + n[6] * s[9]
            == TenColumn(r, s, 5)
    ensures r[0] * s[7] + r[1] * s[6] + r[2] * s[5] + r[3] * s[4] + r[4] * s[3] + r[5] * s[2] + r[6] * s[1] +
            r[7] * s[0] + n[9] * s[8] + n[8] * s[9]
            == TenColumn(r, s, 7)
    ensures r[0] * s[9] + r[1] * s[8] + r[2] * s[7] + r[3] * s[6] + r[4] * s[5] + r[5] * s[4] + r[6] * s[3] +
            r[7] * s[2] + r[8] * s[1] + r[9] * s[0]
            == TenColumn(r, s, 9)
  {
    AllScaled(r, d, n, e, s);
  }

  // ---------- bounds ----------

  /** A folded column of products up to c: 5 - k of them at most c, the rest at most 19 c. */
  lemma FoldedAtMost(x: seq<int>, y: seq<int>, bx: int, wy: int, c: int, k: nat)
    requires Below(x, bx) && Below(y, wy) && bx > 0 && wy > 0 && c == bx * wy && k < 5
    ensures 0 <= Folded(x, y, k)
    ensures k == 0 ==> Folded(x, y, 0) <= 77 * c
    ensures k == 1 ==> Folded(x, y, 1) <= 59 * c
    ensures k == 2 ==> Folded(x, y, 2) <= 41 * c
    ensures k == 3 ==> Folded(x, y, 3) <= 23 * c
    ensures k == 4 ==> Folded(x, y, 4) <= 5 * c
  {
    forall i, j | 0 <= i < 5 && 0 <= j < 5
      ensures 0 <= x[i] * y[j] <= c
    {
      AtMost(x[i], y[j], bx, wy);
    }
  }

  lemma AtMost(x: int, y: int, bx: int, wy: int)
    requires 0 <= x < bx && 0 <= y < wy
    ensures 0 <= x * y <= bx * wy
  {
    MulMono(x, 0, y);
    MulMono(x, y, wy);
    MulMono(wy, x, bx);
  }

  /** No column sum of the ten-limb product wraps in 64 bits, and the top one fits 32 once shifted. */
  lemma TenColumnBound(a: seq<int>, b: seq<int>, k: nat)
    requires Limits(a, 0x800_0000, 0x400_0000) && Limits(b, 0x800_0000, 0x400_0000) && k < 10
    ensures 0 <= TenColumn(a, b, k) < 0x2000_0000_0000_0000
    ensures k == 9 ==> TenColumn(a, b, 9) <= 10 * 0x20_0000_0000_0000
  {
    hide Folded;
    FoldedAtMost(Evens(a), Evens(b), 0x800_0000, 0x800_0000, 0x40_0000_0000_0000, k / 2);
    FoldedAtMost(Evens(a), Odds(b), 0x800_0000, 0x400_0000, 0x20_0000_0000_0000, k / 2);
    FoldedAtMost(Odds(a), Evens(b), 0x400_0000, 0x800_0000, 0x20_0000_0000_0000, k / 2);
    FoldedAtMost(Odds(a), Odds(b), 0x400_0000, 0x400_0000, 0x10_0000_0000_0000, if k < 2 then 4 else k / 2 - 1);
  }

  // ---------- curve25519_mul ----------

  /** The in-place scalings of the first factor, each stored back in 32 bits. */
  method ScaleLimbs(r: seq<u32>) returns (d: seq<u32>, n: seq<u32>, e: seq<u32>)
    requires Limits(r, 0x800_0000, 0x400_0000)
    ensures AreScaled(r, d, n, e)
  {
    d := [r[0], r[1] * 2, r[2], r[3] * 2, r[4], r[5] * 2, r[6], r[7] * 2, r[8], r[9]];
    n := [r[0], r[1], r[2] * 19, r[3] * 19, r[4] * 19, r[5] * 19, r[6] * 19, r[7] * 19, r[8] * 19, r[9] * 19];
    e := [r[0], d[1] * 19, n[2], n[3] * 2, n[4], n[5] * 2, n[6], n[7] * 2, n[8], n[9] * 2];
  }

  /** The odd column sums. */
  method OddPart(a: seq<u32>, b: seq<u32>, n: seq<u32>, ghost d: seq<u32>, ghost e: seq<u32>)
    returns (m1: int, m3: int, m5: int, m7: int, m9: int)
    requires |a| == 10 && AreScaled(b, d, n, e)
    ensures m1 == TenColumn(b, a, 1)
    ensures m3 == TenColumn(b, a, 3)
    ensures m5 == TenColumn(b, a, 5)
    ensures m7 == TenColumn(b, a, 7)
    ensures m9 == TenColumn(b, a, 9)
  {
    hide TenColumn;
    OddSums(b, d, n, e, a);
    var s: seq<int>, r: seq<int>, n: seq<int> := a, b, n;
    m1 := r[0] * s[1] + r[1] * s[0] + n[9] * s[2] + n[8] * s[3] + n[7] * s[4] + n[6] * s[5] + n[5] * s[6] +
      n[4] * s[7] + n[3] * s[8] + n[2] * s[9];
    m3 := r[0] * s[3] + r[1] * s[2] + r[2] * s[1] + r[3] * s[0] + n[9] * s[4] + n[8] * s[5] + n[7] * s[6] +
      n[6] * s[7] + n[5] * s[8] + n[4] * s[9];
    m5 := r[0] * s[5] + r[1] * s[4] + r[2] * s[3] + r[3] * s[2] + r[4] * s[1] + r[5] * s[0] + n[9] * s[6] +
      n[8] * s[7] + n[7] * s[8] + n[6] * s[9];
    m7 := r[0] * s[7] + r[1] * s[6] + r[2] * s[5] + r[3] * s[4] + r[4] * s[3] + r[5] * s[2] + r[6] * s[1] +
      r[7] * s[0] + n[9] * s[8] + n[8] * s[9];
    m9 := r[0] * s[9] + r[1] * s[8] + r[2] * s[7] + r[3] * s[6] + r[4] * s[5] + r[5] * s[4] + r[6] * s[3] +
      r[7] * s[2] + r[8] * s[1] + r[9] * s[0];
  }

  /** The even column sums. */
  method EvenPart(a: seq<u32>, b: seq<u32>, d: seq<u32>, n: seq<u32>, e: seq<u32>)
    returns (m0: int, m2: int, m4: int, m6: int, m8: int)
    requires |a| == 10 && AreScaled(b, d, n, e)
    ensures m0 == TenColumn(b, a, 0)
    ensures m2 == TenColumn(b, a, 2)
    ensures m4 == TenColumn(b, a, 4)
    ensures m6 == TenColumn(b, a, 6)
    ensures m8 == TenColumn(b, a, 8)
  {
    hide TenColumn;
    EvenSums(b, d, n, e, a);
    var s: seq<int>, r: seq<int>, d: seq<int>, n: seq<int>, e: seq<int> := a, b, d, n, e;
    m0 := r[0] * s[0] + e[9] * s[1] + n[8] * s[2] + e[7] * s[3] + n[6] * s[4] + e[5] * s[5] + n[4] * s[6] +
      e[3] * s[7] + n[2] * s[8] + e[1] * s[9];
    m2 := r[0] * s[2] + d[1] * s[1] + r[2] * s[0] + e[9] * s[3] + n[8] * s[4] + e[7] * s[5] + n[6] * s[6] +
      e[5] * s[7] + n[4] * s[8] + e[3] * s[9];
    m4 := r[0] * s[4] + d[1] * s[3] + r[2] * s[2] + d[3] * s[1] + r[4] * s[0] + e[9] * s[5] + n[8] * s[6] +
      e[7] * s[7] + n[6] * s[8] + e[5] * s[9];
    m6 := r[0] * s[6] + d[1] * s[5] + r[2] * s[4] + d[3] * s[3] + r[4] * s[2] + d[5] * s[1] + r[6] * s[0] +
      e[9] * s[7] + n[8] * s[8] + e[7] * s[9];
    m8 := r[0] * s[8] + d[1] * s[7] + r[2] * s[6] + d[3] * s[5] + r[4] * s[4] + d[5] * s[3] + r[6] * s[2] +
      d[7] * s[1] + r[8] * s[0] + e[9] * s[9];
  }

  /** The ten column sums, 64 bits each; all their terms are non-negative. */
  method MulSums(s: seq<u32>, r: seq<u32>) returns (m: seq<u64>)
    requires Limits(r, 0x800_0000, 0x400_0000) && Limits(s, 0x800_0000, 0x400_0000)
    ensures m == TenColumns(r, s) && |m| == 10 && m[9] <= 10 * 0x20_0000_0000_0000
    ensures forall k :: 0 <= k < 10 ==> m[k] < 0x2000_0000_0000_0000
  {
    hide TenColumn;
    SumsFit(r, s);
    var d, n, e := ScaleLimbs(r);
    var m1, m3, m5, m7, m9 := OddPart(s, r, n, d, e);
    var m0, m2, m4, m6, m8 := EvenPart(s, r, d, n, e);
    m := [m0, m1, m2, m3, m4, m5, m6, m7, m8, m9];
  }

  lemma SumsFit(r: seq<int>, s: seq<int>)
    requires Limits(r, 0x800_0000, 0x400_0000) && Limits(s, 0x800_0000, 0x400_0000)
    ensures forall k :: 0 <= k < 10 ==> 0 <= TenColumn(r, s, k) < 0x2000_0000_0000_0000
    ensures TenColumn(r, s, 9) <= 10 * 0x20_0000_0000_0000
  {
    hide TenColumn;
    forall k | 0 <= k < 10
      ensures 0 <= TenColumn(r, s, k) < 0x2000_0000_0000_0000
    {
      TenColumnBound(r, s, k);
    }
    TenColumnBound(r, s, 9);
  }

  /** The carries, and the top one times 19 back at the bottom. */
  method MulCarry(m: seq<u64>) returns (r: seq<u32>, ghost q: int)
    requires |m| == 10 && m[9] <= 10 * 0x20_0000_0000_0000 && forall k :: 0 <= k < 10 ==> m[k] < 0x2000_0000_0000_0000
    ensures |r| == 10 && Limits(r, 0x400_0000, 0x200_0000 + 0x2000)
    ensures TV(m) == TV(r) + TimesP(q)
  {
    hide TV;
    hide Limits;
    var r0, c0 := MulCarry26(m[0]);
    var r1, c1 := MulCarry25(m[1] + c0);
    var r2, c2 := MulCarry26(m[2] + c1);
    var r3, c3 := MulCarry25(m[3] + c2);
    var r4, c4 := MulCarry26(m[4] + c3);
    var r5, c5 := MulCarry25(m[5] + c4);
    var r6, c6 := MulCarry26(m[6] + c5);
    var r7, c7 := MulCarry25(m[7] + c6);
    var r8, c8 := MulCarry26(m[8] + c7);
    var r9, c9 := MulCarry25(m[9] + c8);
    var p: u32 := c9;
    var s0, d := MulCarry26(r0 as int + p as int * 19);
    var s1: u32 := r1 + d;
    r := [s0, s1, r2, r3, r4, r5, r6, r7, r8, r9];
    q := p;
    MulCarried(m, r, [c0, c1, c2, c3, c4, c5, c6, c7, c8, c9], d);
  }

  /** `(uint32_t)m & reduce_mask_26` and `m >> 26`; the same for 25 bits. */
  method MulCarry26(t: u64) returns (r: u32, c: u64)
    ensures r < 0x400_0000 && t == r + 0x400_0000 * c
  {
    r, c := t % 0x400_0000, t / 0x400_0000;
  }

  method MulCarry25(t: u64) returns (r: u32, c: u64)
    ensures r < 0x200_0000 && t == r + 0x200_0000 * c
  {
    r, c := t % 0x200_0000, t / 0x200_0000;
  }

  lemma MulCarried(m: seq<int>, r: seq<int>, c: seq<int>, d: int)
    requires |m| == 10 && |r| == 10 && |c| == 10 && 0 <= d <= 0x2000 && (forall k :: 0 <= k < 10 ==> r[k] >= 0)
    requires r[0] < 0x400_0000 && r[2] < 0x400_0000 && r[4] < 0x400_0000 && r[6] < 0x400_0000 && r[8] < 0x400_0000
    requires r[1] < 0x200_0000 + d && r[3] < 0x200_0000 && r[5] < 0x200_0000 && r[7] < 0x200_0000 && r[9] < 0x200_0000
    requires m[0] + 19 * c[9] == r[0] + 0x400_0000 * d + 0x400_0000 * c[0]
    requires m[1] + c[0] == r[1] - d + 0x200_0000 * c[1] && m[2] + c[1] == r[2] + 0x400_0000 * c[2]
    requires m[3] + c[2] == r[3] + 0x200_0000 * c[3] && m[4] + c[3] == r[4] + 0x400_0000 * c[4]
    requires m[5] + c[4] == r[5] + 0x200_0000 * c[5] && m[6] + c[5] == r[6] + 0x400_0000 * c[6]
    requires m[7] + c[6] == r[7] + 0x200_0000 * c[7] && m[8] + c[7] == r[8] + 0x400_0000 * c[8]
    requires m[9] + c[8] == r[9] + 0x200_0000 * c[9]
    ensures Limits(r, 0x400_0000, 0x200_0000 + 0x2000) && TV(m) == TV(r) + TimesP(c[9])
  {
  }

  /** curve25519_mul. */
  method Mul(out: array<u32>, a: array<u32>, b: array<u32>)
    requires out.Length == 10 && a.Length == 10 && b.Length == 10
    requires Limits(a[..], 0x800_0000, 0x400_0000) && Limits(b[..], 0x800_0000, 0x400_0000)
    modifies out
    ensures Limits(out[..], 0x400_0000, 0x200_0000 + 0x2000)
    ensures TRes(out[..]) == FMul(old(TRes(a[..])), old(TRes(b[..])))
  {
    hide TenColumns;
    hide TV;
    hide Limits;
    ghost var x: seq<int>, y: seq<int> := a[..], b[..];
    var m := MulSums(a[..], b[..]);
    ghost var q;
    var r;
    r, q := MulCarry(m);
    ghost var k := TenColumnsValue(y, x);
    ResidueOfProduct(TV(x), TV(y));
    SameResidue(TV(y) * TV(x), TV(r), k + q);
    out[0], out[1], out[2], out[3], out[4] := r[0], r[1], r[2], r[3], r[4];
    out[5], out[6], out[7], out[8], out[9] := r[5], r[6], r[7], r[8], r[9];
    assert out[..] == r;
  }

  // ---------- curve25519_expand ----------

  /** Four bytes read as a word. */
  function Load32(b: seq<u8>): nat
    requires |b| == 4
  {
    Or(Or(Or(b[0], b[1] as int * 0x100), b[2] as int * 0x1_0000), b[3] as int * 0x100_0000)
  }

  lemma Load32Value(b: seq<u8>)
    requires |b| == 4
    ensures Load32(b) == LE(b) < 0x1_0000_0000
  {
    hide Or;
    Pow2Bytes();
    hide Pow2;
    var a1 := b[0] as int + b[1] as int * 0x100;
    var a2 := a1 + b[2] as int * 0x1_0000;
    OrByte(b[0], b[1], 8);
    OrByte(a1, b[2], 16);
    OrByte(a2, b[3], 24);
    EvalFour(0x100, b);
  }

  /** The words of a byte string. */
  function Words32(b: seq<u8>): (x: seq<u32>)
    requires |b| % 4 == 0
    ensures |x| == |b| / 4
  {
    if |b| == 0 then [] else
    Load32Value(b[..4]);
    [Load32(b[..4])] + Words32(b[4..])
  }

  lemma {:induction false} Words32Value(b: seq<u8>)
    requires |b| % 4 == 0
    ensures Eval(0x1_0000_0000, Words32(b)) == LE(b)
  {
    if |b| > 0 {
      Load32Value(b[..4]);
      Words32Value(b[4..]);
      EvalSplit(0x100, b, 4);
      assert Pow(0x100, 4) == 0x1_0000_0000;
      assert Words32(b)[1..] == Words32(b[4..]);
    }
  }

  lemma EightWords32(s: seq<int>)
    requires |s| == 8
    ensures Eval(0x1_0000_0000, s)
        == s[0] + 0x1_0000_0000 * s[1] + 0x1_0000_0000_0000_0000 * s[2] + 0x1_0000_0000_0000_0000_0000_0000 * s[3]
                            + 0x1_0000_0000_0000_0000_0000_0000_0000_0000 * s[4]
                                + 0x1_0000_0000_0000_0000_0000_0000_0000_0000_0000_0000 * s[5]
                                + 0x1_0000_0000_0000_0000_0000_0000_0000_0000_0000_0000_0000_0000 * s[6]
                                + 0x1_0000_0000_0000_0000_0000_0000_0000_0000_0000_0000_0000_0000_0000_0000 * s[7]
  {
    EvalSplit(0x1_0000_0000, s, 4);
    FourWords32(s[..4]);
    FourWords32(s[4..]);
    assert Pow(0x1_0000_0000, 4) == 0x1_0000_0000_0000_0000_0000_0000_0000_0000;
  }

  lemma FourWords32(s: seq<int>)
    requires |s| == 4
    ensures Eval(0x1_0000_0000, s)
        == s[0] + 0x1_0000_0000 * s[1] + 0x1_0000_0000_0000_0000 * s[2] + 0x1_0000_0000_0000_0000_0000_0000 * s[3]
  {
    EvalFour(0x1_0000_0000, s);
  }

  lemma Stacked(lo: int, hi: int, p: int, q: int, t: int, r: int)
    requires p * q == 0x1_0000_0000 && lo == p * t + r
    ensures lo + 0x1_0000_0000 * hi == p * (t + q * hi) + r
  {
    assert p * (q * hi) == (p * q) * hi;
  }

  /** `((hi << 32) | lo) >> s`, masked: the top of one word under the bottom of the next. */
  lemma TwoWords(lo: nat, hi: nat, p: nat, q: nat, n: nat)
    requires lo < 0x1_0000_0000 && p > 0 && p * q == 0x1_0000_0000 && n > 0
    ensures Or(hi * 0x1_0000_0000, lo) / p % (q * n) == lo / p + q * (hi % n)
  {
    hide Or;
    Pow2Bytes();
    hide Pow2;
    OrCommute(hi * 0x1_0000_0000, lo);
    OrAbove(lo, hi, 32, 0x1_0000_0000);
    var t, r := lo / p, lo % p;
    assert q > 0;
    Stacked(lo, hi, p, q, t, r);
    DivModUnique(lo + 0x1_0000_0000 * hi, p, t + q * hi, r);
    if t >= q {
      MulMono(p, q, t);
    }
    CutField(t, hi, q, n);
  }

  /** curve25519_expand on words. */
  function LimbsOf(x: seq<u32>): (r: seq<nat>)
    requires |x| == 8
    ensures |r| == 10
  {
    [x[0] % 0x400_0000,
     Or(x[1] as int * 0x1_0000_0000, x[0]) / 0x400_0000 % 0x200_0000,
     Or(x[2] as int * 0x1_0000_0000, x[1]) / 0x8_0000 % 0x400_0000,
     Or(x[3] as int * 0x1_0000_0000, x[2]) / 0x2000 % 0x200_0000,
     x[3] / 0x40 % 0x400_0000,
     x[4] % 0x200_0000,
     Or(x[5] as int * 0x1_0000_0000, x[4]) / 0x200_0000 % 0x400_0000,
     Or(x[6] as int * 0x1_0000_0000, x[5]) / 0x8_0000 % 0x200_0000,
     Or(x[7] as int * 0x1_0000_0000, x[6]) / 0x1000 % 0x400_0000,
     x[7] / 0x40 % 0x200_0000]
  }

  lemma LimbsAre(x: seq<u32>)
    requires |x| == 8
    ensures var r := LimbsOf(x);
      && r[1] == x[0] / 0x400_0000 + 0x40 * (x[1] % 0x8_0000) && r[2] == x[1] / 0x8_0000 + 0x2000 * (x[2] % 0x2000)
      && r[3] == x[2] / 0x2000 + 0x8_0000 * (x[3] % 0x40) && r[6] == x[4] / 0x200_0000 + 0x80 * (x[5] % 0x8_0000)
      && r[7] == x[5] / 0x8_0000 + 0x2000 * (x[6] % 0x1000) && r[8] == x[6] / 0x1000 + 0x10_0000 * (x[7] % 0x40)
  {
    hide Or;
    TwoWords(x[0], x[1], 0x400_0000, 0x40, 0x8_0000);
    TwoWords(x[1], x[2], 0x8_0000, 0x2000, 0x2000);
    TwoWords(x[2], x[3], 0x2000, 0x8_0000, 0x40);
    TwoWords(x[4], x[5], 0x200_0000, 0x80, 0x8_0000);
    TwoWords(x[5], x[6], 0x8_0000, 0x2000, 0x1000);
    TwoWords(x[6], x[7], 0x1000, 0x10_0000, 0x40);
  }

  lemma LimbsValue(x: seq<u32>)
    requires |x| == 8
    ensures Limits(LimbsOf(x), 0x400_0000, 0x200_0000)
    ensures TV(LimbsOf(x))
        == Eval(0x1_0000_0000, x) % 0x8000_0000_0000_0000_0000_0000_0000_0000_0000_0000_0000_0000_0000_0000_0000_0000
  {
    hide Or;
    hide Eval;
    LimbsAre(x);
    EightWords32(x);
    LowLimbs(x, LimbsOf(x));
    HighLimbs(x, LimbsOf(x));
    var r := LimbsOf(x);
    FullSum(r);
    hide TV;
    DivModUnique(Eval(0x1_0000_0000, x),
        0x8000_0000_0000_0000_0000_0000_0000_0000_0000_0000_0000_0000_0000_0000_0000_0000, x[7] / 0x8000_0000, TV(r));
  }

  /** Bits 0 to 127. */
  lemma LowLimbs(x: seq<int>, r: seq<int>)
    requires |x| == 8 && |r| == 10 && forall i :: 0 <= i < 8 ==> 0 <= x[i] < 0x1_0000_0000
    requires r[0] == x[0] % 0x400_0000 && r[1] == x[0] / 0x400_0000 + 0x40 * (x[1] % 0x8_0000)
        && r[2] == x[1] / 0x8_0000 + 0x2000 * (x[2] % 0x2000)
    requires r[3] == x[2] / 0x2000 + 0x8_0000 * (x[3] % 0x40) && r[4] == x[3] / 0x40 % 0x400_0000
    ensures r[0] + 0x400_0000 * r[1] + 0x8_0000_0000_0000 * r[2] + 0x2000_0000_0000_0000_0000 * r[3]
        + 0x40_0000_0000_0000_0000_0000_0000 * r[4]
        == x[0] + 0x1_0000_0000 * x[1] + 0x1_0000_0000_0000_0000 * x[2] + 0x1_0000_0000_0000_0000_0000_0000 * x[3]
    ensures 0 <= r[0] < 0x400_0000 && 0 <= r[1] < 0x200_0000 && 0 <= r[2] < 0x400_0000 && 0 <= r[3] < 0x200_0000
        && 0 <= r[4] < 0x400_0000
  {
  }

  /** Bits 128 to 254. */
  lemma HighLimbs(x: seq<int>, r: seq<int>)
    requires |x| == 8 && |r| == 10 && forall i :: 0 <= i < 8 ==> 0 <= x[i] < 0x1_0000_0000
    requires r[5] == x[4] % 0x200_0000 && r[6] == x[4] / 0x200_0000 + 0x80 * (x[5] % 0x8_0000)
        && r[7] == x[5] / 0x8_0000 + 0x2000 * (x[6] % 0x1000)
    requires r[8] == x[6] / 0x1000 + 0x10_0000 * (x[7] % 0x40) && r[9] == x[7] / 0x40 % 0x200_0000
    ensures r[5] + 0x200_0000 * r[6] + 0x8_0000_0000_0000 * r[7] + 0x1000_0000_0000_0000_0000 * r[8]
        + 0x40_0000_0000_0000_0000_0000_0000 * r[9] + 0x8000_0000_0000_0000_0000_0000_0000_0000 * (x[7] / 0x8000_0000)
            == x[4] + 0x1_0000_0000 * x[5] + 0x1_0000_0000_0000_0000 * x[6] + 0x1_0000_0000_0000_0000_0000_0000 * x[7]
    ensures 0 <= r[5] < 0x200_0000 && 0 <= r[6] < 0x400_0000 && 0 <= r[7] < 0x200_0000 && 0 <= r[8] < 0x400_0000
        && 0 <= r[9] < 0x200_0000
  {
    assert x[7] / 0x40 == x[7] / 0x40 % 0x200_0000 + 0x200_0000 * (x[7] / 0x8000_0000);
  }

  /** Limbs 0 to 4, and limbs 5 to 9 from bit 128 up. */
  function LowSum(r: seq<int>): int
    requires |r| == 10
  {
    r[0] + 0x400_0000 * r[1] + 0x8_0000_0000_0000 * r[2] + 0x2000_0000_0000_0000_0000 * r[3]
        + 0x40_0000_0000_0000_0000_0000_0000 * r[4]
  }

  function HighSum(r: seq<int>): int
    requires |r| == 10
  {
    r[5] + 0x200_0000 * r[6] + 0x8_0000_0000_0000 * r[7] + 0x1000_0000_0000_0000_0000 * r[8]
        + 0x40_0000_0000_0000_0000_0000_0000 * r[9]
  }

  lemma FullSum(r: seq<int>)
    requires |r| == 10
    ensures TV(r) == LowSum(r) + 0x1_0000_0000_0000_0000_0000_0000_0000_0000 * HighSum(r)
    ensures Limits(r, 0x400_0000, 0x200_0000) ==>
        0 <= TV(r) < 0x8000_0000_0000_0000_0000_0000_0000_0000_0000_0000_0000_0000_0000_0000_0000_0000
  {
  }

  /** curve25519_expand: the same number the five-limb code reads. */
  method Expand(out: array<u32>, input: seq<u8>)
    requires out.Length == 10 && |input| == 32
    modifies out
    ensures Limits(out[..], 0x400_0000, 0x200_0000)
    ensures TV(out[..]) == LE(input) % 0x8000_0000_0000_0000_0000_0000_0000_0000_0000_0000_0000_0000_0000_0000_0000_0000
  {
    hide LE;
    hide TV;
    hide Eval;
    hide Words32;
    var x := Words32(input);
    Words32Value(input);
    LimbsValue(x);
    var r := LimbsOf(x);
    hide LimbsOf;
    hide Limits;
    LimitsFit(r);
    var i := 0;
    while i < 10
      invariant 0 <= i <= 10 && forall k :: 0 <= k < i ==> out[k] == r[k]
    {
      out[i] := r[i];
      i := i + 1;
    }
    assert out[..] == r;
  }

  lemma LimitsFit(r: seq<int>)
    requires Limits(r, 0x400_0000, 0x200_0000)
    ensures |r| == 10 && forall k :: 0 <= k < 10 ==> 0 <= r[k] < 0x400_0000
  {
    forall k | 0 <= k < 10
      ensures 0 <= r[k] < 0x400_0000
    {
      if k % 2 == 0 {
        assert Evens(r)[k / 2] == r[k];
      } else {
        assert Odds(r)[k / 2] == r[k];
      }
    }
  }

  // ---------- curve25519_contract ----------

  /** `f & reduce_mask_26` and `f >> 26`; the same for 25 bits. */
  method Carry26(t: u32) returns (r: u32, c: u32)
    ensures r < 0x400_0000 && t == r + 0x400_0000 * c
  {
    r, c := t % 0x400_0000, t / 0x400_0000;
  }

  method Carry25(t: u32) returns (r: u32, c: u32)
    ensures r < 0x200_0000 && t == r + 0x200_0000 * c
  {
    r, c := t % 0x200_0000, t / 0x200_0000;
  }

  /** carry_pass: every limb but the top one brought into its place. */
  method CarryPass(f: seq<u32>) returns (r: seq<u32>)
    requires |f| == 10 && forall k :: 0 <= k < 10 ==> f[k] < 0x8000_0000
    ensures Carried(r) && r[9] <= f[9] + 0x80 && TV(r) == TV(f)
    ensures Limits(f, 0x400_0000, 0x200_0000) ==> r == f
    ensures OneOver(f) ==>
        r[9] == f[9] || (r[9] == f[9] + 1 && r[0] == f[0] - 0x400_0000 && forall k :: 1 <= k < 9 ==> r[k] == 0)
  {
    hide TV;
    hide OneOver;
    hide Limits;
    var r0, c0 := Carry26(f[0]);
    var r1, c1 := Carry25(f[1] + c0);
    var r2, c2 := Carry26(f[2] + c1);
    var r3, c3 := Carry25(f[3] + c2);
    var r4, c4 := Carry26(f[4] + c3);
    var r5, c5 := Carry25(f[5] + c4);
    var r6, c6 := Carry26(f[6] + c5);
    var r7, c7 := Carry25(f[7] + c6);
    var r8, c8 := Carry26(f[8] + c7);
    r := [r0, r1, r2, r3, r4, r5, r6, r7, r8, f[9] + c8];
    ghost var c: seq<int> := [c0, c1, c2, c3, c4, c5, c6, c7, c8];
    PassValue(f, r, c);
    PassRipple(f, r, c);
  }

  /** r is f with the carries c moved up: each even place holds 26 bits, each odd one 25. */
  ghost predicate Moved(f: seq<int>, r: seq<int>, c: seq<int>) {
    && |f| == 10 && |r| == 10 && |c| == 9 && Carried(r) && (forall k :: 0 <= k < 10 ==> f[k] >= 0)
    && f[0] == r[0] + 0x400_0000 * c[0] && f[1] + c[0] == r[1] + 0x200_0000 * c[1]
        && f[2] + c[1] == r[2] + 0x400_0000 * c[2]
    && f[3] + c[2] == r[3] + 0x200_0000 * c[3] && f[4] + c[3] == r[4] + 0x400_0000 * c[4]
        && f[5] + c[4] == r[5] + 0x200_0000 * c[5]
    && f[6] + c[5] == r[6] + 0x400_0000 * c[6] && f[7] + c[6] == r[7] + 0x200_0000 * c[7]
        && f[8] + c[7] == r[8] + 0x400_0000 * c[8]
    && f[9] + c[8] == r[9]
  }

  lemma PassValue(f: seq<int>, r: seq<int>, c: seq<int>)
    requires Moved(f, r, c)
    ensures TV(r) == TV(f)
  {
  }

  /** When only limb 0 was over, either no carry reaches the top or every limb it crossed became zero. */
  lemma PassRipple(f: seq<int>, r: seq<int>, c: seq<int>)
    requires Moved(f, r, c)
    ensures Limits(f, 0x400_0000, 0x200_0000) ==> r == f
    ensures OneOver(f) ==>
        r[9] == f[9] || (r[9] == f[9] + 1 && r[0] == f[0] - 0x400_0000 && forall k :: 1 <= k < 9 ==> r[k] == 0)
  {
    if Limits(f, 0x400_0000, 0x200_0000) {
      assert c[0] == 0;
      assert c[1] == 0 && c[2] == 0;
      assert c[3] == 0 && c[4] == 0;
      assert c[5] == 0 && c[6] == 0;
      assert c[7] == 0 && c[8] == 0;
    } else if OneOver(f) {
      assert 0 <= c[0] <= 1;
      assert c[1] == 0 || (c[1] == 1 && c[0] == 1 && r[1] == 0);
      assert c[2] == 0 || (c[2] == 1 && c[1] == 1 && r[2] == 0);
      assert c[3] == 0 || (c[3] == 1 && c[2] == 1 && r[3] == 0);
      assert c[4] == 0 || (c[4] == 1 && c[3] == 1 && r[4] == 0);
      assert c[5] == 0 || (c[5] == 1 && c[4] == 1 && r[5] == 0);
      assert c[6] == 0 || (c[6] == 1 && c[5] == 1 && r[6] == 0);
      assert c[7] == 0 || (c[7] == 1 && c[6] == 1 && r[7] == 0);
      assert c[8] == 0 || (c[8] == 1 && c[7] == 1 && r[8] == 0);
    }
  }

  /** All limbs but the top one in their places. */
  predicate Carried(f: seq<int>) {
    && |f| == 10 && 0 <= f[9]
    && 0 <= f[0] < 0x400_0000 && 0 <= f[2] < 0x400_0000 && 0 <= f[4] < 0x400_0000 && 0 <= f[6] < 0x400_0000
        && 0 <= f[8] < 0x400_0000
    && 0 <= f[1] < 0x200_0000 && 0 <= f[3] < 0x200_0000 && 0 <= f[5] < 0x200_0000 && 0 <= f[7] < 0x200_0000
  }

  /** All limbs in their places but the bottom one, which may be over by less than its own size. */
  predicate OneOver(f: seq<int>) {
    && |f| == 10 && 0 <= f[0] < 0x800_0000
    && 0 <= f[2] < 0x400_0000 && 0 <= f[4] < 0x400_0000 && 0 <= f[6] < 0x400_0000 && 0 <= f[8] < 0x400_0000
    && 0 <= f[1] < 0x200_0000 && 0 <= f[3] < 0x200_0000 && 0 <= f[5] < 0x200_0000 && 0 <= f[7] < 0x200_0000
        && 0 <= f[9] < 0x200_0000
  }

  /** After a full pass: limb 0 at most a little over. */
  predicate Settled(f: seq<int>) {
    OneOver(f) && f[0] < 0x400_0000 + 0x2000
  }

  /** carry_pass_full: the top folded back times 19. */
  method CarryFull(f: seq<u32>) returns (r: seq<u32>, ghost q: nat)
    requires |f| == 10 && forall k :: 0 <= k < 10 ==> f[k] < 0x8000_0000
    ensures Settled(r) && TV(f) == TV(r) + TimesP(q)
    ensures Settled(f) ==>
        Limits(r, 0x400_0000, 0x200_0000) && q <= 1
        && (q == 1 <==> TV(f) >= 0x8000_0000_0000_0000_0000_0000_0000_0000_0000_0000_0000_0000_0000_0000_0000_0000)
  {
    hide TV;
    var t := CarryPass(f);
    var c: u32 := t[9] / 0x200_0000;
    q := c;
    r := [t[0] + 19 * c, t[1], t[2], t[3], t[4], t[5], t[6], t[7], t[8], t[9] % 0x200_0000];
    FoldTop(t, r, c);
    TopCarried(t, r, c);
  }

  lemma FoldTop(t: seq<int>, r: seq<int>, c: int)
    requires |t| == 10 && |r| == 10 && t[9] == r[9] + 0x200_0000 * c && r[0] == t[0] + 19 * c
    requires forall k :: 1 <= k < 9 ==> r[k] == t[k]
    ensures TV(t) == TV(r) + TimesP(c)
  {
  }

  /** The carry out of the top is there exactly when the number reaches 2^255. */
  lemma TopCarried(t: seq<int>, r: seq<int>, c: nat)
    requires Carried(t) && |r| == 10 && t[9] == r[9] + 0x200_0000 * c && 0 <= r[9] < 0x200_0000
    requires forall k :: 1 <= k < 9 ==> r[k] == t[k]
    ensures c >= 1 <==> TV(t) >= 0x8000_0000_0000_0000_0000_0000_0000_0000_0000_0000_0000_0000_0000_0000_0000_0000
  {
    FullSum(t);
  }

  /** The limbs of the residue itself. */
  method Freeze(f: seq<u32>) returns (t: seq<u32>)
    requires |f| == 10 && forall k :: 0 <= k < 10 ==> f[k] < 0x8000_0000
    ensures Limits(t, 0x400_0000, 0x200_0000) && TV(t) == Mod(TV(f))
  {
    hide TV;
    hide Limits;
    ghost var q1, q2, q3;
    t, q1 := CarryFull(f);
    t, q2 := CarryFull(t);
    LimitsFit(t);
    Whole(t);
    ghost var v := TV(t);
    SameResidue(TV(f), v, q1 + q2);
    NineteenMore(t);
    t := [t[0] + 19, t[1], t[2], t[3], t[4], t[5], t[6], t[7], t[8], t[9]];
    t, q3 := CarryFull(t);
    LimitsFit(t);
    ghost var w := TV(t);
    Offset(t);
    t := [t[0] + (0x400_0000 - 19), t[1] + (0x200_0000 - 1), t[2] + (0x400_0000 - 1), t[3] + (0x200_0000 - 1),
        t[4] + (0x400_0000 - 1),
          t[5] + (0x200_0000 - 1), t[6] + (0x400_0000 - 1), t[7] + (0x200_0000 - 1), t[8] + (0x400_0000 - 1),
              t[9] + (0x200_0000 - 1)];
    ghost var u := TV(t);
    t := CarryPass(t);
    t := DropTop(t);
    LimitsFit(t);
    FieldBytes.FinalResidue(v, w, q3, u, TV(t));
  }

  lemma Whole(t: seq<int>)
    requires Limits(t, 0x400_0000, 0x200_0000)
    ensures |t| == 10 && 0 <= TV(t) < 0x8000_0000_0000_0000_0000_0000_0000_0000_0000_0000_0000_0000_0000_0000_0000_0000
  {
    FullSum(t);
  }

  lemma NineteenMore(t: seq<int>)
    requires Limits(t, 0x400_0000, 0x200_0000)
    ensures var r := [t[0] + 19, t[1], t[2], t[3], t[4], t[5], t[6], t[7], t[8], t[9]];
      TV(r) == TV(t) + 19 && Settled(r)
  {
  }

  lemma Offset(t: seq<int>)
    requires |t| == 10
    ensures var r := [t[0] + (0x400_0000 - 19), t[1] + (0x200_0000 - 1), t[2] + (0x400_0000 - 1),
        t[3] + (0x200_0000 - 1), t[4] + (0x400_0000 - 1),
                      t[5] + (0x200_0000 - 1), t[6] + (0x400_0000 - 1), t[7] + (0x200_0000 - 1),
                          t[8] + (0x400_0000 - 1), t[9] + (0x200_0000 - 1)];
      TV(r) == TV(t) + 0x8000_0000_0000_0000_0000_0000_0000_0000_0000_0000_0000_0000_0000_0000_0000_0000 - 19
  {
  }

  /** `f[9] &= 2^25 - 1`. */
  method DropTop(t: seq<u32>) returns (r: seq<u32>)
    requires Carried(t)
    ensures Limits(r, 0x400_0000, 0x200_0000)
        && TV(r) == TV(t) % 0x8000_0000_0000_0000_0000_0000_0000_0000_0000_0000_0000_0000_0000_0000_0000_0000
  {
    r := [t[0], t[1], t[2], t[3], t[4], t[5], t[6], t[7], t[8], t[9] % 0x200_0000];
    FullSum(t);
    FullSum(r);
    hide TV;
    DivModUnique(TV(t), 0x8000_0000_0000_0000_0000_0000_0000_0000_0000_0000_0000_0000_0000_0000_0000_0000,
        t[9] / 0x200_0000, TV(r));
  }

  /** F(i, s): a shifted limb stored at byte s, its low byte joined to what is there. */
  method PutLimb(out: array<u8>, s: nat, v: u32, ghost t: nat, ghost w: int)
    requires w == Pow(0x100, s)
    requires s + 4 <= out.Length && t <= 8 && out[s] < Pow2(t) && v % Pow2(t) == 0
    modifies out
    ensures LE(out[..s + 4]) == old(LE(out[..s + 1])) + w * v
    ensures out[s + 3] == v / 0x100_0000 && forall i :: s + 4 <= i < out.Length ==> out[i] == old(out[i])
  {
    hide Or;
    hide LE;
    ghost var head: seq<u8>, low := out[..s], out[s];
    LowByte(v, t, low);
    assert out[..s + 1] == head + [low];
    out[s] := Or(out[s], v % 0x100);
    out[s + 1] := v / 0x100 % 0x100;
    out[s + 2] := v / 0x1_0000 % 0x100;
    out[s + 3] := v / 0x100_0000 % 0x100;
    assert out[..s + 4] == head + [out[s], out[s + 1], out[s + 2], out[s + 3]];
    FourBytes(low, v, [out[s], out[s + 1], out[s + 2], out[s + 3]]);
    PlaceBytes(head, low, v, [out[s], out[s + 1], out[s + 2], out[s + 3]]);
  }

  /** A value clear in its low t bits joins a byte below 2^t without overlap. */
  lemma LowByte(v: nat, t: nat, x: nat)
    requires t <= 8 && v % Pow2(t) == 0 && x < Pow2(t)
    ensures Or(x, v % 0x100) == x + v % 0x100 < 0x100
  {
    hide Or;
    Pow2Add(t, 8 - t);
    assert Pow2(8) == 0x100;
    MultipleMod(Pow2(t), Pow2(8 - t));
    ModOfMod(v, 0x100, Pow2(t));
    OrDisjoint(x, v % 0x100, t);
    FitsAbove(x, v % 0x100, Pow2(t), Pow2(8 - t));
  }

  lemma FitsAbove(x: nat, w: nat, p: nat, q: nat)
    requires x < p && w % p == 0 && w < p * q
    ensures x + w < p * q
  {
    var k := w / p;
    assert w == p * k;
    if k >= q {
      MulMono(p, q, k);
    }
    MulMono(p, k, q - 1);
    assert p * (q - 1) == p * q - p;
  }

  lemma PlaceBytes(head: seq<u8>, low: u8, v: int, b: seq<u8>)
    requires Eval(0x100, b) == low + v
    ensures LE(head + b) == LE(head + [low]) + Pow(0x100, |head|) * v
  {
    hide Pow;
    EvalAppend(0x100, head, b);
    EvalAppend(0x100, head, [low]);
    EvalOne(0x100, low);
    hide Eval;
  }

  lemma FourBytes(low: int, v: u32, b: seq<int>)
    requires |b| == 4 && b[0] == low + v % 0x100
    requires b[1] == v / 0x100 % 0x100 && b[2] == v / 0x1_0000 % 0x100 && b[3] == v / 0x100_0000 % 0x100
    ensures Eval(0x100, b) == low + v
  {
    EvalFour(0x100, b);
    hide Eval;
    WordSplit(v);
  }

  lemma WordSplit(v: u32)
    ensures v == v % 0x100 + 0x100 * (v / 0x100 % 0x100) + 0x1_0000 * (v / 0x1_0000 % 0x100)
        + 0x100_0000 * (v / 0x100_0000 % 0x100)
  {
    var v1 := v / 0x100;
    var v2 := v1 / 0x100;
    assert v2 == v / 0x1_0000 && v2 / 0x100 == v / 0x100_0000;
  }

  /** The weights of the bytes the limbs are stored at. */
  lemma ByteWeights()
    ensures Pow(0x100, 0) == 1 && Pow(0x100, 3) == 0x100_0000 && Pow(0x100, 6) == 0x1_0000_0000_0000
        && Pow(0x100, 9) == 0x100_0000_0000_0000_0000
    ensures Pow(0x100, 12) == 0x1_0000_0000_0000_0000_0000_0000
        && Pow(0x100, 16) == 0x1_0000_0000_0000_0000_0000_0000_0000_0000
        && Pow(0x100, 19) == 0x100_0000_0000_0000_0000_0000_0000_0000_0000_0000
    ensures Pow(0x100, 22) == 0x1_0000_0000_0000_0000_0000_0000_0000_0000_0000_0000_0000
        && Pow(0x100, 25) == 0x100_0000_0000_0000_0000_0000_0000_0000_0000_0000_0000_0000_0000
        && Pow(0x100, 28) == 0x1_0000_0000_0000_0000_0000_0000_0000_0000_0000_0000_0000_0000_0000_0000
  {
    assert Pow(0x100, 3) == 0x100_0000 && Pow(0x100, 4) == 0x1_0000_0000;
    PowAdd(0x100, 3, 3);
    PowAdd(0x100, 6, 3);
    PowAdd(0x100, 9, 3);
    PowAdd(0x100, 12, 4);
    PowAdd(0x100, 16, 3);
    PowAdd(0x100, 19, 3);
    PowAdd(0x100, 22, 3);
    PowAdd(0x100, 25, 3);
  }

  /** The first five limbs, in bytes 0 to 15. */
  method PutLow(out: array<u8>, f: seq<u32>)
    requires out.Length == 32 && Limits(f, 0x400_0000, 0x200_0000) && out[0] == 0
    modifies out
    ensures LE(out[..16]) == LowSum(f)
    ensures out[16..] == old(out[16..])
  {
    hide LE;
    hide Pow;
    ByteWeights();
    StartsAt(out[..1]);
    PutLimb(out, 0, f[0], 0, 1);
    PutLimb(out, 3, f[1] as int * 4, 2, 0x100_0000);
    PutLimb(out, 6, f[2] as int * 8, 3, 0x1_0000_0000_0000);
    PutLimb(out, 9, f[3] as int * 32, 5, 0x100_0000_0000_0000_0000);
    PutLimb(out, 12, f[4] as int * 64, 6, 0x1_0000_0000_0000_0000_0000_0000);
  }

  lemma StartsAt(b: seq<u8>)
    requires |b| == 1
    ensures LE(b) == b[0]
  {
    assert b == [b[0]];
    EvalOne(0x100, b[0]);
  }

  /** The other five, in bytes 16 to 31. */
  method PutHigh(out: array<u8>, f: seq<u32>)
    requires out.Length == 32 && Limits(f, 0x400_0000, 0x200_0000) && out[16] == 0
    modifies out
    ensures LE(out[..]) == old(LE(out[..16])) + 0x1_0000_0000_0000_0000_0000_0000_0000_0000 * HighSum(f)
  {
    hide LE;
    hide Pow;
    ByteWeights();
    NullByte(out[..17]);
    assert out[..17][..16] == out[..16];
    PutLimb(out, 16, f[5], 0, 0x1_0000_0000_0000_0000_0000_0000_0000_0000);
    PutLimb(out, 19, f[6] as int * 2, 1, 0x100_0000_0000_0000_0000_0000_0000_0000_0000_0000);
    PutLimb(out, 22, f[7] as int * 8, 3, 0x1_0000_0000_0000_0000_0000_0000_0000_0000_0000_0000_0000);
    PutLimb(out, 25, f[8] as int * 16, 4, 0x100_0000_0000_0000_0000_0000_0000_0000_0000_0000_0000_0000_0000);
    PutLimb(out, 28, f[9] as int * 64, 6, 0x1_0000_0000_0000_0000_0000_0000_0000_0000_0000_0000_0000_0000_0000_0000);
    assert out[..32] == out[..];
  }

  lemma NullByte(b: seq<u8>)
    requires |b| > 0 && b[|b| - 1] == 0
    ensures LE(b) == LE(b[..|b| - 1])
  {
    var n := |b| - 1;
    EvalSplit(0x100, b, n);
    assert b[n..] == [b[n]];
    EvalOne(0x100, b[n]);
  }

  /** curve25519_contract. */
  method Contract(out: array<u8>, input: array<u32>)
    requires out.Length == 32 && input.Length == 10 && forall k :: 0 <= k < 10 ==> input[k] < 0x8000_0000
    modifies out
    ensures LE(out[..]) == TRes(input[..])
  {
    hide LE;
    hide TV;
    hide Limits;
    var f := Freeze(input[..]);
    LimitsFit(f);
    FullSum(f);
    out[0] := 0;
    out[16] := 0;
    PutLow(out, f);
    PutHigh(out, f);
  }

  // ---------- the two pipelines ----------

  /** contract(mul(expand a, expand b)) on ten limbs. */
  method Product10(a: seq<u8>, b: seq<u8>) returns (out: array<u8>)
    requires |a| == 32 && |b| == 32
    ensures fresh(out) && out.Length == 32
    ensures LE(out[..]) == FMul(LE(a)
        % 0x8000_0000_0000_0000_0000_0000_0000_0000_0000_0000_0000_0000_0000_0000_0000_0000,
        LE(b) % 0x8000_0000_0000_0000_0000_0000_0000_0000_0000_0000_0000_0000_0000_0000_0000_0000)
  {
    hide LE;
    hide TV;
    hide Limits;
    var x, y := new u32[10], new u32[10];
    out := new u8[32];
    Expand(x, a);
    Expand(y, b);
    Wider(x[..]);
    Wider(y[..]);
    Mul(x, x, y);
    SmallEnough(x[..]);
    Contract(out, x);
    FMulResidues(LE(a) % 0x8000_0000_0000_0000_0000_0000_0000_0000_0000_0000_0000_0000_0000_0000_0000_0000,
        LE(b) % 0x8000_0000_0000_0000_0000_0000_0000_0000_0000_0000_0000_0000_0000_0000_0000_0000);
  }

  /** contract(mul(expand a, expand b)) on five limbs. */
  method Product5(a: seq<u8>, b: seq<u8>) returns (out: array<u8>)
    requires |a| == 32 && |b| == 32
    ensures fresh(out) && out.Length == 32
    ensures LE(out[..]) == FMul(LE(a)
        % 0x8000_0000_0000_0000_0000_0000_0000_0000_0000_0000_0000_0000_0000_0000_0000_0000,
        LE(b) % 0x8000_0000_0000_0000_0000_0000_0000_0000_0000_0000_0000_0000_0000_0000_0000_0000)
  {
    hide LE;
    hide FV;
    var x, y := new u64[5], new u64[5];
    out := new u8[32];
    FieldBytes.Expand(x, a);
    FieldBytes.Expand(y, b);
    Field25519.Mul(x, x, y);
    FieldBytes.Contract(out, 0, x);
    assert out[0..32] == out[..];
    FMulResidues(LE(a) % 0x8000_0000_0000_0000_0000_0000_0000_0000_0000_0000_0000_0000_0000_0000_0000_0000,
        LE(b) % 0x8000_0000_0000_0000_0000_0000_0000_0000_0000_0000_0000_0000_0000_0000_0000_0000);
  }

  /** Both representations give the same bytes for every pair of inputs. */
  method SameBytes(a: seq<u8>, b: seq<u8>) returns (five: array<u8>, ten: array<u8>)
    requires |a| == 32 && |b| == 32
    ensures five[..] == ten[..]
  {
    hide LE;
    five := Product5(a, b);
    ten := Product10(a, b);
    FieldBytes.EncodingUnique(five[..], ten[..]);
  }

  lemma FMulResidues(x: int, y: int)
    ensures FMul(Mod(x), Mod(y)) == FMul(x, y)
  {
    ResidueOfProduct(x, y);
    FMulIs(x, y);
    hide FMul;
  }

  lemma Wider(s: seq<int>)
    requires Limits(s, 0x400_0000, 0x200_0000)
    ensures Limits(s, 0x800_0000, 0x400_0000)
  {
  }

  lemma SmallEnough(s: seq<int>)
    requires Limits(s, 0x400_0000, 0x200_0000 + 0x2000)
    ensures |s| == 10 && forall k :: 0 <= k < 10 ==> 0 <= s[k] < 0x8000_0000
  {
    forall k | 0 <= k < 10
      ensures 0 <= s[k] < 0x8000_0000
    {
      if k % 2 == 0 {
        assert Evens(s)[k / 2] == s[k];
      } else {
        assert Odds(s)[k / 2] == s[k];
      }
    }
  }
}
