/**
 The field of integers modulo p = 2^255 - 19 on five limbs of 51 bits with lazy reduction
 (curve25519-donna-64bit.h). Each primitive writes its result into `out` limb by limb; `out` may be
 one of the inputs. Every value stored in a `u64` or `u128` carries the obligation that it fits.
 */
module Field25519 {
  import opened Numbers
  import opened Columns

  const P := 0x7fffffffffffffffffffffffffffffffffffffffffffffffffffffffffffffed

  /**
   x modulo p: p is added or taken away until the number is in range. Written without a division, so that no
   proof has to reason about quotients by p; ModIsRemainder says that it is the remainder.
   */
  function Mod(x: int): (r: int)
    ensures 0 <= r < P
    decreases if 0 <= x < P then 0 else if x < 0 then 1 - x else x
  {
    if x < 0 then Mod(x + P) else if x >= P then Mod(x - P) else x
  }

  /** k p. */
  function TimesP(k: int): int {
    0x7fff_ffff_ffff_ffff_ffff_ffff_ffff_ffff_ffff_ffff_ffff_ffff_ffff_ffff_ffff_ffed * k
  }

  /** The number five limbs stand for. */
  function FV(s: seq<int>): int
    requires |s| == 5
  {
    s[0] + 0x8_0000_0000_0000 * s[1] + 0x40_0000_0000_0000_0000_0000_0000 * s[2]
        + 0x200_0000_0000_0000_0000_0000_0000_0000_0000_0000 * s[3]
        + 0x1000_0000_0000_0000_0000_0000_0000_0000_0000_0000_0000_0000_0000 * s[4]
  }

  predicate Below(s: seq<int>, b: int) {
    && |s| == 5
    && 0 <= s[0] < b && 0 <= s[1] < b && 0 <= s[2] < b && 0 <= s[3] < b && 0 <= s[4] < b
  }

  /** What a product may be given: limbs below 2^54. */
  predicate Wide(s: seq<int>) {
    Below(s, 0x40_0000_0000_0000)
  }

  /** What one lazy sum or difference of reduced numbers returns: limbs below 7 * 2^50. */
  predicate Loose(s: seq<int>): (r: bool)
    ensures r ==> Wide(s)
  {
    Below(s, 0x1c_0000_0000_0000)
  }

  /** What every product and reducing sum returns: limbs below 2^51 + 2^15. */
  predicate Red(s: seq<int>): (r: bool)
    ensures r ==> Loose(s)
  {
    Below(s, 0x8_0000_0000_8000)
  }

  /** The residue five limbs stand for. */
  function Res(s: seq<int>): (r: int)
    requires |s| == 5
    ensures 0 <= r < P
  {
    Mod(FV(s))
  }

  function FAdd(x: int, y: int): int { Mod(x + y) }
  function FSub(x: int, y: int): int { Mod(x - y) }

  /** x added to itself n times. */
  function Repeat(x: int, n: nat): (r: int)
    ensures 0 <= r < P
  {
    if n == 0 then 0 else FAdd(Repeat(x, n - 1), x)
  }

  /** x y modulo p, as repeated addition so that specifications hold no product of unknowns; see FMulIs. */
  function FMul(x: int, y: int): (r: int)
    ensures 0 <= r < P
  {
    Repeat(x, Mod(y))
  }

  // ---------- residues of sums, differences and products ----------

  lemma ModStep(x: int)
    ensures Mod(x + P) == Mod(x)
  {
  }

  /** x and y differ by a multiple of p. */
  lemma {:induction false} SameResidue(x: int, y: int, k: int)
    requires x == y + TimesP(k)
    ensures Mod(x) == Mod(y)
    decreases if k < 0 then -k else k
  {
    hide Mod;
    if k > 0 {
      SameResidue(x - P, y, k - 1);
      ModStep(x - P);
    } else if k < 0 {
      SameResidue(x + P, y, k + 1);
      ModStep(x);
    }
  }

  lemma {:induction false} Split(x: int) returns (k: int)
    ensures x == Mod(x) + TimesP(k)
    decreases if 0 <= x < P then 0 else if x < 0 then 1 - x else x
  {
    if x < 0 {
      k := Split(x + P);
      k := k - 1;
    } else if x >= P {
      k := Split(x - P);
      k := k + 1;
    } else {
      k := 0;
    }
  }

  /** Mod is the remainder of division by p. */
  lemma ModIsRemainder(x: int)
    ensures Mod(x) == x % P
  {
    var k := Split(x);
    hide Mod;
    DivModUnique(x, P, k, Mod(x));
  }

  /** A number in range plus a multiple of p has that residue. */
  lemma ModIs(x: int, k: int, r: int)
    requires x == r + TimesP(k) && 0 <= r < P
    ensures Mod(x) == r
  {
    SameResidue(x, r, k);
  }

  lemma ResidueOfSum(x: int, y: int)
    ensures Mod(x + y) == FAdd(Mod(x), Mod(y))
    ensures Mod(x - y) == FSub(Mod(x), Mod(y))
  {
    var i := Split(x);
    var j := Split(y);
    SameResidue(x + y, Mod(x) + Mod(y), i + j);
    SameResidue(x - y, Mod(x) - Mod(y), i - j);
  }

  lemma {:induction false} RepeatIs(x: int, n: nat)
    ensures Repeat(x, n) == Mod(x * n)
  {
    if n > 0 {
      RepeatIs(x, n - 1);
      hide Mod;
      var k := Split(x * (n - 1));
      SameResidue(x * (n - 1) + x, Mod(x * (n - 1)) + x, k);
      assert x * n == x * (n - 1) + x;
    }
  }

  /** FMul is the residue of the product. */
  lemma FMulIs(x: int, y: int)
    ensures FMul(x, y) == Mod(x * y)
  {
    hide Mod;
    hide Repeat;
    var k := Split(y);
    RepeatIs(x, Mod(y));
    ShiftedFactor(x, Mod(y), k);
    SameResidue(x * y, x * Mod(y), x * k);
  }

  lemma ShiftedFactor(x: int, r: int, k: int)
    ensures x * (r + TimesP(k)) == x * r + TimesP(x * k)
    ensures (r + TimesP(k)) * x == r * x + TimesP(k * x)
  {
  }

  lemma ResidueOfProduct(x: int, y: int)
    ensures Mod(x * y) == FMul(Mod(x), Mod(y))
  {
    FMulIs(Mod(x), y);
    ModOnce(y);
    hide Repeat;
    hide Mod;
    var i := Split(x);
    ShiftedFactor(y, Mod(x), i);
    SameResidue(x * y, Mod(x) * y, i * y);
  }

  lemma ModOnce(y: int)
    ensures Mod(Mod(y)) == Mod(y)
  {
  }

  // ---------- the field's laws ----------

  lemma FAddCommute(x: int, y: int)
    ensures FAdd(x, y) == FAdd(y, x)
  {
  }

  lemma FMulCommute(x: int, y: int)
    ensures FMul(x, y) == FMul(y, x)
  {
    FMulIs(x, y);
    FMulIs(y, x);
    hide Mod;
    assert x * y == y * x;
  }

  lemma FMulAssoc(x: int, y: int, z: int)
    ensures FMul(FMul(x, y), z) == FMul(x, FMul(y, z))
  {
    FMulIs(x, y);
    FMulIs(y, z);
    FMulIs(FMul(x, y), z);
    FMulIs(x, FMul(y, z));
    hide FMul;
    hide Mod;
    var i := Split(x * y);
    var j := Split(y * z);
    Reassociate(x, y, z, FMul(x, y), i, FMul(y, z), j);
    SameResidue(FMul(x, y) * z, x * FMul(y, z), j * x - i * z);
  }

  lemma Reassociate(x: int, y: int, z: int, m: int, i: int, n: int, j: int)
    requires x * y == m + TimesP(i) && y * z == n + TimesP(j)
    ensures m * z == x * n + TimesP(j * x - i * z)
  {
    assert (x * y) * z == x * (y * z);
    assert (m + TimesP(i)) * z == m * z + TimesP(i * z);
    assert x * (n + TimesP(j)) == x * n + TimesP(j * x);
  }

  lemma FMulOne(x: int)
    requires 0 <= x < P
    ensures FMul(x, 1) == x == FMul(1, x)
  {
    FMulIs(x, 1);
    FMulIs(1, x);
  }

  lemma FMulZero(x: int)
    ensures FMul(x, 0) == 0 == FMul(0, x)
  {
    FMulIs(x, 0);
    FMulIs(0, x);
  }

  lemma Dist(a: int, b: int, c: int)
    ensures FMul(FAdd(a, b), c) == FAdd(FMul(a, c), FMul(b, c))
    ensures FMul(FSub(a, b), c) == FSub(FMul(a, c), FMul(b, c))
  {
    FMulIs(a, c);
    FMulIs(b, c);
    FMulIs(FAdd(a, b), c);
    FMulIs(FSub(a, b), c);
    DistInts(a, b, c);
  }

  lemma DistInts(a: int, b: int, c: int)
    ensures Mod(FAdd(a, b) * c) == FAdd(Mod(a * c), Mod(b * c))
    ensures Mod(FSub(a, b) * c) == FSub(Mod(a * c), Mod(b * c))
  {
    hide Mod;
    ResidueOfSum(a * c, b * c);
    var i := Split(a + b);
    var j := Split(a - b);
    ShiftedFactor(c, FAdd(a, b), i);
    ShiftedFactor(c, FSub(a, b), j);
    SameResidue(a * c + b * c, FAdd(a, b) * c, i * c);
    SameResidue(a * c - b * c, FSub(a, b) * c, j * c);
  }

  /** The same from the left. */
  lemma DistLeft(c: int, a: int, b: int)
    ensures FMul(c, FAdd(a, b)) == FAdd(FMul(c, a), FMul(c, b))
    ensures FMul(c, FSub(a, b)) == FSub(FMul(c, a), FMul(c, b))
  {
    Dist(a, b, c);
    FMulCommute(c, FAdd(a, b));
    FMulCommute(c, FSub(a, b));
    FMulCommute(c, a);
    FMulCommute(c, b);
  }

  /** (a b)(c d) = (a c)(b d). */
  lemma Mul4(a: int, b: int, c: int, d: int)
    ensures FMul(FMul(a, b), FMul(c, d)) == FMul(FMul(a, c), FMul(b, d))
  {
    hide FMul;
    FMulAssoc(a, b, FMul(c, d));
    FMulAssoc(b, c, d);
    FMulCommute(b, c);
    FMulAssoc(c, b, d);
    FMulAssoc(a, c, FMul(b, d));
  }

  /** (a b) c = (a c) b. */
  lemma MulSwap(a: int, b: int, c: int)
    ensures FMul(FMul(a, b), c) == FMul(FMul(a, c), b)
  {
    hide FMul;
    FMulAssoc(a, b, c);
    FMulCommute(b, c);
    FMulAssoc(a, c, b);
  }

  // ---------- lazy sums and differences ----------

  /** curve25519_add, and curve25519_add_after_basic, whose bodies are the same. */
  method Add(out: array<u64>, a: array<u64>, b: array<u64>)
    requires out.Length == 5 && a.Length == 5 && b.Length == 5
    requires Wide(a[..]) && Wide(b[..])
    modifies out
    ensures Res(out[..]) == FAdd(old(Res(a[..])), old(Res(b[..])))
    ensures old(Red(a[..]) && Red(b[..])) ==> Loose(out[..])
    ensures old(Loose(a[..]) && Red(b[..])) ==> Wide(out[..])
  {
    ghost var x: seq<int>, y: seq<int> := a[..], b[..];
    out[0] := a[0] + b[0];
    out[1] := a[1] + b[1];
    out[2] := a[2] + b[2];
    out[3] := a[3] + b[3];
    out[4] := a[4] + b[4];
    AddValue(x, y, out[..]);
  }

  lemma AddValue(x: seq<int>, y: seq<int>, s: seq<int>)
    requires |x| == 5 && |y| == 5 && |s| == 5 && forall i :: 0 <= i < 5 ==> s[i] == x[i] + y[i]
    ensures Res(s) == FAdd(Res(x), Res(y))
  {
    assert FV(s) == FV(x) + FV(y);
    ResidueOfSum(FV(x), FV(y));
  }

  /** curve25519_sub: adds 2p limb by limb so that no limb goes negative. */
  method Sub(out: array<u64>, a: array<u64>, b: array<u64>)
    requires out.Length == 5 && a.Length == 5 && b.Length == 5
    requires Wide(a[..]) && Red(b[..])
    modifies out
    ensures Res(out[..]) == FSub(old(Res(a[..])), old(Res(b[..])))
    ensures old(Red(a[..])) ==> Loose(out[..])
  {
    ghost var x: seq<int>, y: seq<int> := a[..], b[..];
    out[0] := a[0] + 0xf_ffff_ffff_ffda - b[0];
    out[1] := a[1] + 0xf_ffff_ffff_fffe - b[1];
    out[2] := a[2] + 0xf_ffff_ffff_fffe - b[2];
    out[3] := a[3] + 0xf_ffff_ffff_fffe - b[3];
    out[4] := a[4] + 0xf_ffff_ffff_fffe - b[4];
    SubValue(x, y, out[..], 2);
  }

  lemma SubValue(x: seq<int>, y: seq<int>, s: seq<int>, k: int)
    requires |x| == 5 && |y| == 5 && |s| == 5
    requires FV(s) == FV(x) - FV(y) + TimesP(k)
    ensures Res(s) == FSub(Res(x), Res(y))
  {
    SameResidue(FV(s), FV(x) - FV(y), k);
    ResidueOfSum(FV(x), FV(y));
  }

  /** curve25519_sub_after_basic: adds 4p, for a subtrahend that is itself a lazy sum or difference. */
  method SubAfterBasic(out: array<u64>, a: array<u64>, b: array<u64>)
    requires out.Length == 5 && a.Length == 5 && b.Length == 5
    requires Loose(a[..]) && Loose(b[..])
    modifies out
    ensures Res(out[..]) == FSub(old(Res(a[..])), old(Res(b[..])))
    ensures Wide(out[..])
  {
    ghost var x: seq<int>, y: seq<int> := a[..], b[..];
    out[0] := a[0] + 0x1f_ffff_ffff_ffb4 - b[0];
    out[1] := a[1] + 0x1f_ffff_ffff_fffc - b[1];
    out[2] := a[2] + 0x1f_ffff_ffff_fffc - b[2];
    out[3] := a[3] + 0x1f_ffff_ffff_fffc - b[3];
    out[4] := a[4] + 0x1f_ffff_ffff_fffc - b[4];
    SubValue(x, y, out[..], 4);
  }

  // ---------- products ----------

  /** Column k of a product with the columns five places up folded back in, since 2^255 = 19 modulo p. */
  function Folded(a: seq<int>, b: seq<int>, k: nat): int
    requires |a| == 5 && |b| == 5
  {
    Column(a, b, k) + 19 * Column(a, b, k + 5)
  }

  lemma FoldedBound(a: seq<int>, b: seq<int>, k: nat)
    requires Wide(a) && Wide(b) && k < 5
    ensures 0 <= Folded(a, b, k) <= 77 * 0x1000_0000_0000_0000_0000_0000_0000
    ensures k == 3 ==> Folded(a, b, k) <= 23 * 0x1000_0000_0000_0000_0000_0000_0000
    ensures k == 4 ==> Folded(a, b, k) <= 5 * 0x1000_0000_0000_0000_0000_0000_0000
  {
    forall i, j | 0 <= i < 5 && 0 <= j < 5
      ensures 0 <= a[i] * b[j] < 0x1000_0000_0000_0000_0000_0000_0000
    {
      ProductBelow(a[i], b[j], 0x40_0000_0000_0000);
    }
  }

  lemma FieldRow(x: int, b: seq<int>)
    requires |b| == 5
    ensures x * FV(b) == x * b[0] + 0x8_0000_0000_0000 * (x * b[1]) + 0x40_0000_0000_0000_0000_0000_0000 * (x * b[2])
        + 0x200_0000_0000_0000_0000_0000_0000_0000_0000_0000 * (x * b[3])
        + 0x1000_0000_0000_0000_0000_0000_0000_0000_0000_0000_0000_0000_0000 * (x * b[4])
  {
  }

  lemma FieldDistribute(a: seq<int>, v: int)
    requires |a| == 5
    ensures FV(a) * v == a[0] * v + 0x8_0000_0000_0000 * (a[1] * v) + 0x40_0000_0000_0000_0000_0000_0000 * (a[2] * v)
        + 0x200_0000_0000_0000_0000_0000_0000_0000_0000_0000 * (a[3] * v)
        + 0x1000_0000_0000_0000_0000_0000_0000_0000_0000_0000_0000_0000_0000 * (a[4] * v)
  {
  }

  lemma FieldColumns(a: seq<int>, b: seq<int>)
    requires |a| == 5 && |b| == 5
    ensures FV(a) * FV(b)
            == Column(a, b, 0) + 0x8_0000_0000_0000 * Column(a, b, 1)
                + 0x40_0000_0000_0000_0000_0000_0000 * Column(a, b, 2)
                + 0x200_0000_0000_0000_0000_0000_0000_0000_0000_0000 * Column(a, b, 3)
               + 0x1000_0000_0000_0000_0000_0000_0000_0000_0000_0000_0000_0000_0000 * Column(a, b, 4)
               + 0x8000_0000_0000_0000_0000_0000_0000_0000_0000_0000_0000_0000_0000_0000_0000_0000
                   * (Column(a, b, 5) + 0x8_0000_0000_0000 * Column(a, b, 6)
                   + 0x40_0000_0000_0000_0000_0000_0000 * Column(a, b, 7)
                   + 0x200_0000_0000_0000_0000_0000_0000_0000_0000_0000 * Column(a, b, 8))
  {
    FieldRow(a[0], b);
    FieldRow(a[1], b);
    FieldRow(a[2], b);
    FieldRow(a[3], b);
    FieldRow(a[4], b);
    FieldDistribute(a, FV(b));
  }

  lemma FoldedValue(a: seq<int>, b: seq<int>) returns (k: int)
    requires |a| == 5 && |b| == 5
    ensures FV(a) * FV(b) == FV([Folded(a, b, 0), Folded(a, b, 1), Folded(a, b, 2), Folded(a, b, 3), Folded(a, b, 4)])
                             + TimesP(k)
  {
    FieldColumns(a, b);
    k := Column(a, b, 5) + 0x8_0000_0000_0000 * Column(a, b, 6) + 0x40_0000_0000_0000_0000_0000_0000 * Column(a, b, 7)
        + 0x200_0000_0000_0000_0000_0000_0000_0000_0000_0000 * Column(a, b, 8);
    assert Column(a, b, 9) == 0;
    hide Column;
  }

  /** The column sums as the code forms them, with limbs 1 to 4 of the second factor times 19 in `n`. */
  lemma MulColumns(s: seq<int>, r: seq<int>, n: seq<int>)
    requires |s| == 5 && |r| == 5 && |n| == 5 && forall i :: 1 <= i < 5 ==> n[i] == 19 * r[i]
    ensures r[0] * s[0] + (n[4] * s[1] + n[1] * s[4] + n[2] * s[3] + n[3] * s[2]) == Folded(s, r, 0)
    ensures r[0] * s[1] + r[1] * s[0] + (n[4] * s[2] + n[2] * s[4] + n[3] * s[3]) == Folded(s, r, 1)
    ensures r[0] * s[2] + r[2] * s[0] + r[1] * s[1] + (n[4] * s[3] + n[3] * s[4]) == Folded(s, r, 2)
    ensures r[0] * s[3] + r[3] * s[0] + r[1] * s[2] + r[2] * s[1] + n[4] * s[4] == Folded(s, r, 3)
    ensures r[0] * s[4] + r[4] * s[0] + r[3] * s[1] + r[1] * s[3] + r[2] * s[2] == Folded(s, r, 4)
  {
    NineteenTimes(n[1], r[1], s[4]);
    NineteenTimes(n[2], r[2], s[3]);
    NineteenTimes(n[2], r[2], s[4]);
    NineteenTimes(n[3], r[3], s[2]);
    NineteenTimes(n[3], r[3], s[3]);
    NineteenTimes(n[3], r[3], s[4]);
    NineteenTimes(n[4], r[4], s[1]);
    NineteenTimes(n[4], r[4], s[2]);
    NineteenTimes(n[4], r[4], s[3]);
    NineteenTimes(n[4], r[4], s[4]);
  }

  lemma NineteenTimes(m: int, x: int, y: int)
    requires m == 19 * x
    ensures m * y == 19 * (y * x)
  {
    assert (19 * x) * y == 19 * (y * x);
  }

  /** The five column sums of a product: the high columns are added to the low ones times 19. */
  method MulSums(s: seq<int>, r: seq<int>) returns (t0: u128, t1: u128, t2: u128, t3: u128, t4: u128)
    requires Wide(s) && Wide(r)
    ensures t0 == Folded(s, r, 0) && t1 == Folded(s, r, 1) && t2 == Folded(s, r, 2)
    ensures t3 == Folded(s, r, 3) && t4 == Folded(s, r, 4)
  {
    hide Folded;
    forall i, j | 0 <= i < 5 && 0 <= j < 5
      ensures 0 <= r[i] * s[j] < 0x1000_0000_0000_0000_0000_0000_0000
    {
      ProductBelow(r[i], s[j], 0x40_0000_0000_0000);
    }
    t0 := r[0] * s[0];
    t1 := r[0] * s[1] + r[1] * s[0];
    t2 := r[0] * s[2] + r[2] * s[0] + r[1] * s[1];
    t3 := r[0] * s[3] + r[3] * s[0] + r[1] * s[2] + r[2] * s[1];
    t4 := r[0] * s[4] + r[4] * s[0] + r[3] * s[1] + r[1] * s[3] + r[2] * s[2];
    var scaled: seq<u64> := [r[0], r[1] * 19, r[2] * 19, r[3] * 19, r[4] * 19];
    var n: seq<int> := scaled;
    MulColumns(s, r, n);
    forall k: nat | k < 5 { FoldedBound(s, r, k); }
    t0 := t0 + (n[4] * s[1] + n[1] * s[4] + n[2] * s[3] + n[3] * s[2]);
    t1 := t1 + (n[4] * s[2] + n[2] * s[4] + n[3] * s[3]);
    t2 := t2 + (n[4] * s[3] + n[3] * s[4]);
    t3 := t3 + n[4] * s[4];
  }

  /** `lo128(t) & (2^51 - 1)` and `t >> 51`. */
  method Carry51(t: u128) returns (r: u64, c: u64)
    requires t < 0x8_0000_0000_0000_0000_0000_0000_0000
    ensures r < 0x8_0000_0000_0000 && t == r + 0x8_0000_0000_0000 * c
  {
    var lo: u64 := t % 0x1_0000_0000_0000_0000;
    r := lo % 0x8_0000_0000_0000;
    DivModUnique(t, 0x8_0000_0000_0000, 0x2000 * (t / 0x1_0000_0000_0000_0000) + lo / 0x8_0000_0000_0000, r);
    c := t / 0x8_0000_0000_0000;
  }

  /** The carry chain of curve25519_mul: five column sums become five reduced limbs. */
  method CarryColumns(t0: u128, t1: u128, t2: u128, t3: u128, t4: u128) returns (r: seq<u64>, ghost k: int)
    requires t0 < 0x4_e000_0000_0000_0000_0000_0000_0000 && t1 < 0x4_e000_0000_0000_0000_0000_0000_0000
        && t2 < 0x4_e000_0000_0000_0000_0000_0000_0000 && t3 < 0x4_e000_0000_0000_0000_0000_0000_0000
        && t4 <= 5 * 0x1000_0000_0000_0000_0000_0000_0000
    ensures Red(r) && r[0] < 0x8_0000_0000_0000
    ensures FV([t0, t1, t2, t3, t4]) == FV(r) + TimesP(k)
  {
    var r0, r1, r2, r3, r4, c0, c1, c2, c3, c4;
    r0, c0 := Carry51(t0);
    r1, c1 := Carry51(t1 + c0);
    r2, c2 := Carry51(t2 + c1);
    r3, c3 := Carry51(t3 + c2);
    r4, c4 := Carry51(t4 + c3);
    var w: u64 := r0 as int + c4 as int * 19;
    var c: u64 := w / 0x8_0000_0000_0000;
    r := [w % 0x8_0000_0000_0000, r1 + c, r2, r3, r4];
    k := c4;
  }

  /** curve25519_mul. */
  method Mul(out: array<u64>, in2: array<u64>, in1: array<u64>)
    requires out.Length == 5 && in2.Length == 5 && in1.Length == 5
    requires Wide(in2[..]) && Wide(in1[..])
    modifies out
    ensures Red(out[..]) && out[0] < 0x8_0000_0000_0000
    ensures Res(out[..]) == FMul(old(Res(in2[..])), old(Res(in1[..])))
  {
    hide FV;
    hide Folded;
    var s: seq<int>, r: seq<int> := in2[..], in1[..];
    forall k: nat | k < 5 { FoldedBound(s, r, k); }
    var t0, t1, t2, t3, t4 := MulSums(s, r);
    var t, k := CarryColumns(t0, t1, t2, t3, t4);
    ProductResidue(s, r, t, k);
    out[0], out[1], out[2], out[3], out[4] := t[0], t[1], t[2], t[3], t[4];
    assert out[..] == t;
  }

  lemma ProductResidue(a: seq<int>, b: seq<int>, t: seq<int>, k: int)
    requires |a| == 5 && |b| == 5 && |t| == 5
    requires FV([Folded(a, b, 0), Folded(a, b, 1), Folded(a, b, 2), Folded(a, b, 3), Folded(a, b, 4)])
             == FV(t) + TimesP(k)
    ensures Res(t) == FMul(Res(a), Res(b))
  {
    hide FV;
    hide Folded;
    var j := FoldedValue(a, b);
    SameResidue(FV(a) * FV(b), FV(t), j + k);
    ResidueOfProduct(FV(a), FV(b));
  }

  // ---------- squares ----------

  /** The doubled and folded products of curve25519_square are the columns of a times a. */
  lemma SquareColumns(a: seq<int>)
    requires |a| == 5
    ensures a[0] * a[0] + (a[4] * 19 * 2) * a[1] + (a[2] * 2 * 19) * a[3] == Folded(a, a, 0)
    ensures (a[0] * 2) * a[1] + (a[4] * 19 * 2) * a[2] + a[3] * (a[3] * 19) == Folded(a, a, 1)
    ensures (a[0] * 2) * a[2] + a[1] * a[1] + (a[4] * 19 * 2) * a[3] == Folded(a, a, 2)
    ensures (a[0] * 2) * a[3] + (a[1] * 2) * a[2] + a[4] * (a[4] * 19) == Folded(a, a, 3)
    ensures (a[0] * 2) * a[4] + (a[1] * 2) * a[3] + a[2] * a[2] == Folded(a, a, 4)
  {
    Factors(a[0], a[1]);
    Factors(a[0], a[2]);
    Factors(a[0], a[3]);
    Factors(a[0], a[4]);
    Factors(a[1], a[2]);
    Factors(a[1], a[3]);
    Factors(a[4], a[1]);
    Factors(a[4], a[2]);
    Factors(a[4], a[3]);
    Factors(a[2], a[3]);
    Factors(a[3], a[3]);
    Factors(a[4], a[4]);
  }

  /** Constants taken out of a product, and its two orders. */
  lemma Factors(x: int, y: int)
    ensures (x * 2) * y == 2 * (x * y) && (x * 19 * 2) * y == 38 * (x * y) && (x * 2 * 19) * y == 38 * (x * y)
    ensures x * (y * 19) == 19 * (x * y) && x * y == y * x
  {
  }

  /** The five column sums of a square. */
  method SquareSums(a: seq<int>) returns (t0: u128, t1: u128, t2: u128, t3: u128, t4: u128)
    requires Wide(a)
    ensures t0 == Folded(a, a, 0) && t1 == Folded(a, a, 1) && t2 == Folded(a, a, 2)
    ensures t3 == Folded(a, a, 3) && t4 == Folded(a, a, 4)
  {
    SquareColumns(a);
    hide Folded;
    forall k: nat | k < 5 { FoldedBound(a, a, k); }
    var d0: u64 := a[0] * 2;
    var d1: u64 := a[1] * 2;
    var d2: u64 := a[2] * 2 * 19;
    var d419: u64 := a[4] * 19;
    var d4: u64 := d419 * 2;
    var d319: u64 := a[3] * 19;
    t0 := a[0] * a[0] + d4 as int * a[1] + d2 as int * a[3];
    t1 := d0 as int * a[1] + d4 as int * a[2] + a[3] * d319 as int;
    t2 := d0 as int * a[2] + a[1] * a[1] + d4 as int * a[3];
    t3 := d0 as int * a[3] + d1 as int * a[2] + a[4] * d419 as int;
    t4 := d0 as int * a[4] + d1 as int * a[3] + a[2] * a[2];
  }

  /** curve25519_square. */
  method Square(out: array<u64>, in1: array<u64>)
    requires out.Length == 5 && in1.Length == 5 && Wide(in1[..])
    modifies out
    ensures Red(out[..]) && out[0] < 0x8_0000_0000_0000
    ensures Res(out[..]) == FMul(old(Res(in1[..])), old(Res(in1[..])))
  {
    hide FV;
    hide Folded;
    var a: seq<int> := in1[..];
    forall k: nat | k < 5 { FoldedBound(a, a, k); }
    var t0, t1, t2, t3, t4 := SquareSums(a);
    var t, k := CarryColumns(t0, t1, t2, t3, t4);
    ProductResidue(a, a, t, k);
    out[0], out[1], out[2], out[3], out[4] := t[0], t[1], t[2], t[3], t[4];
    assert out[..] == t;
  }

  /** x^n modulo p. */
  function FPow(x: int, n: nat): (r: int)
    ensures 0 <= r < P
  {
    if n == 0 then 1 else FMul(FPow(x, n - 1), x)
  }

  lemma {:induction false} FPowAdd(x: int, m: nat, n: nat)
    ensures FPow(x, m + n) == FMul(FPow(x, m), FPow(x, n))
  {
    hide FMul;
    if n == 0 {
      FMulOne(FPow(x, m));
    } else {
      FPowAdd(x, m, n - 1);
      FMulAssoc(FPow(x, m), FPow(x, n - 1), x);
    }
  }

  lemma FPowOne(x: int)
    requires 0 <= x < P
    ensures FPow(x, 1) == x
  {
    assert FPow(x, 1) == FMul(FPow(x, 0), x);
    FMulOne(x);
  }

  /** `r >> 51` and `r & (2^51 - 1)` on a 64-bit limb. */
  method CarryLimb(t: u64) returns (r: u64, c: u64)
    ensures r < 0x8_0000_0000_0000 && t == r + 0x8_0000_0000_0000 * c
  {
    r, c := t % 0x8_0000_0000_0000, t / 0x8_0000_0000_0000;
  }

  /** The carry passes of curve25519_square_times, which let the sums stay unpropagated for one step. */
  method SquareCarry(t0: u128, t1: u128, t2: u128, t3: u128, t4: u128) returns (r: seq<u64>, ghost k: int)
    requires t0 < 0x4_e000_0000_0000_0000_0000_0000_0000 && t1 < 0x4_e000_0000_0000_0000_0000_0000_0000
        && t2 < 0x4_e000_0000_0000_0000_0000_0000_0000 && t3 <= 23 * 0x1000_0000_0000_0000_0000_0000_0000
        && t4 <= 5 * 0x1000_0000_0000_0000_0000_0000_0000
    ensures Red(r)
    ensures FV([t0, t1, t2, t3, t4]) == FV(r) + TimesP(k)
  {
    var a0, c0 := Carry51(t0);
    var a1, c1 := Carry51(t1);
    var a2, c2 := Carry51(t2);
    var a3, c3 := Carry51(t3);
    var a4, c4 := Carry51(t4);
    var r0, d0 := CarryLimb(a0 as int + c4 as int * 19);
    var r1, d1 := CarryLimb(a1 + c0 + d0);
    var r2, d2 := CarryLimb(a2 + c1 + d1);
    var r3, d3 := CarryLimb(a3 + c2 + d2);
    var r4, d4 := CarryLimb(a4 + c3 + d3);
    r := [r0 + d4 * 19, r1, r2, r3, r4];
    k := c4 as int + d4 as int;
  }

  /** curve25519_square_times: `count` squarings, so the power 2^count and not 2 * count. */
  method SquareTimes(out: array<u64>, in1: array<u64>, count: nat)
    requires out.Length == 5 && in1.Length == 5 && Wide(in1[..]) && count >= 1
    modifies out
    ensures Red(out[..])
    ensures Res(out[..]) == FPow(old(Res(in1[..])), Pow2(count))
  {
    hide FV;
    hide Folded;
    hide FMul;
    var r: seq<u64> := in1[..];
    ghost var x := Res(r);
    var left := count;
    FPowOne(x);
    while left > 0
      invariant 0 <= left <= count
      invariant Wide(r) && (left < count ==> Red(r))
      invariant Res(r) == FPow(x, Pow2(count - left))
    {
      ghost var a: seq<int> := r;
      forall k: nat | k < 5 { FoldedBound(a, a, k); }
      var t0, t1, t2, t3, t4 := SquareSums(r);
      var s, k := SquareCarry(t0, t1, t2, t3, t4);
      r := s;
      ProductResidue(a, a, r, k);
      ghost var e := Pow2(count - left);
      FPowAdd(x, e, e);
      left := left - 1;
      assert Pow2(count - left) == e + e;
    }
    out[0], out[1], out[2], out[3], out[4] := r[0], r[1], r[2], r[3], r[4];
    assert out[..] == r;
  }

  // ---------- reducing sums ----------

  /** The single carry pass shared by curve25519_add_reduce, _sub_reduce and _neg. */
  method ReduceLimbs(s: seq<int>) returns (r: seq<u64>)
    requires Below(s, 0x80_0000_0000_0000)
    ensures Red(r) && Res(r) == Res(s)
  {
    var c: u64 := s[0] / 0x8_0000_0000_0000; var r0: u64 := s[0] % 0x8_0000_0000_0000; ghost var c0 := c;
    var x: u64 := s[1] + c; c := x / 0x8_0000_0000_0000; var r1: u64 := x % 0x8_0000_0000_0000; ghost var c1 := c;
    x := s[2] + c; c := x / 0x8_0000_0000_0000; var r2: u64 := x % 0x8_0000_0000_0000; ghost var c2 := c;
    x := s[3] + c; c := x / 0x8_0000_0000_0000; var r3: u64 := x % 0x8_0000_0000_0000; ghost var c3 := c;
    x := s[4] + c; c := x / 0x8_0000_0000_0000; var r4: u64 := x % 0x8_0000_0000_0000;
    r := [r0 + c * 19, r1, r2, r3, r4];
    ReduceSum(s, r, c0, c1, c2, c3, c);
  }

  lemma ReduceSum(s: seq<int>, r: seq<int>, c0: int, c1: int, c2: int, c3: int, c4: int)
    requires |s| == 5 && |r| == 5
    requires s[0] == r[0] - 19 * c4 + 0x8_0000_0000_0000 * c0
    requires s[1] + c0 == r[1] + 0x8_0000_0000_0000 * c1
    requires s[2] + c1 == r[2] + 0x8_0000_0000_0000 * c2
    requires s[3] + c2 == r[3] + 0x8_0000_0000_0000 * c3
    requires s[4] + c3 == r[4] + 0x8_0000_0000_0000 * c4
    ensures Res(r) == Res(s)
  {
    assert FV(s) == FV(r) + TimesP(c4);
    SameResidue(FV(s), FV(r), c4);
  }

  /** curve25519_add_reduce. */
  method AddReduce(out: array<u64>, a: array<u64>, b: array<u64>)
    requires out.Length == 5 && a.Length == 5 && b.Length == 5
    requires Loose(a[..]) && Loose(b[..])
    modifies out
    ensures Red(out[..])
    ensures Res(out[..]) == FAdd(old(Res(a[..])), old(Res(b[..])))
  {
    ghost var x: seq<int>, y: seq<int> := a[..], b[..];
    var s := [a[0] + b[0], a[1] + b[1], a[2] + b[2], a[3] + b[3], a[4] + b[4]];
    AddValue(x, y, s);
    hide Res;
    var r := ReduceLimbs(s);
    out[0], out[1], out[2], out[3], out[4] := r[0], r[1], r[2], r[3], r[4];
    assert out[..] == r;
  }

  /** curve25519_sub_reduce. */
  method SubReduce(out: array<u64>, a: array<u64>, b: array<u64>)
    requires out.Length == 5 && a.Length == 5 && b.Length == 5
    requires Loose(a[..]) && Loose(b[..])
    modifies out
    ensures Red(out[..])
    ensures Res(out[..]) == FSub(old(Res(a[..])), old(Res(b[..])))
  {
    ghost var x: seq<int>, y: seq<int> := a[..], b[..];
    var s := [a[0] + 0x1f_ffff_ffff_ffb4 - b[0], a[1] + 0x1f_ffff_ffff_fffc - b[1], a[2] + 0x1f_ffff_ffff_fffc - b[2],
              a[3] + 0x1f_ffff_ffff_fffc - b[3], a[4] + 0x1f_ffff_ffff_fffc - b[4]];
    SubValue(x, y, s, 4);
    hide Res;
    var r := ReduceLimbs(s);
    out[0], out[1], out[2], out[3], out[4] := r[0], r[1], r[2], r[3], r[4];
    assert out[..] == r;
  }

  /** curve25519_neg. */
  method Neg(out: array<u64>, a: array<u64>)
    requires out.Length == 5 && a.Length == 5 && Red(a[..])
    modifies out
    ensures Red(out[..])
    ensures Res(out[..]) == FSub(0, old(Res(a[..])))
  {
    ghost var x: seq<int> := a[..];
    var s := [0xf_ffff_ffff_ffda - a[0], 0xf_ffff_ffff_fffe - a[1], 0xf_ffff_ffff_fffe - a[2],
        0xf_ffff_ffff_fffe - a[3], 0xf_ffff_ffff_fffe - a[4]];
    SubValue([0, 0, 0, 0, 0], x, s, 2);
    assert FV([0, 0, 0, 0, 0]) == 0 && Res([0, 0, 0, 0, 0]) == 0;
    hide Res;
    var r := ReduceLimbs(s);
    out[0], out[1], out[2], out[3], out[4] := r[0], r[1], r[2], r[3], r[4];
    assert out[..] == r;
  }

  /** curve25519_copy. */
  method Copy(out: array<u64>, in1: array<u64>)
    requires out.Length == 5 && in1.Length == 5
    modifies out
    ensures out[..] == old(in1[..])
  {
    out[0] := in1[0];
    out[1] := in1[1];
    out[2] := in1[2];
    out[3] := in1[3];
    out[4] := in1[4];
  }
}
