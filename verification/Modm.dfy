/**
 Arithmetic modulo the group order on five 56-bit limbs, written in place as the C code does.
 Every assignment to a `u64` or `u128` variable carries the obligation that nothing wraps;
 where the code relies on wrap-around it is written out with `% 0x1_0000_0000_0000_0000`.
 */
module Modm {
  import opened Numbers
  import opened Scalars
  import opened Columns

  /** lt_modm: the sign bit of the wrapped difference. */
  function Lt(a: u64, b: u64): (r: u64)
    ensures a < 0x8000_0000_0000_0000 && b < 0x8000_0000_0000_0000 ==> r == if a < b then 1 else 0
  {
    ((a - b) % 0x1_0000_0000_0000_0000) / 0x8000_0000_0000_0000
  }

  /** `mask & x` for a mask that is all zeros or all ones. */
  function MaskAnd(mask: u64, x: nat): nat
    requires mask == 0 || mask == 0x1_0000_0000_0000_0000 - 1
  {
    if mask == 0 then 0 else x
  }

  /** `r ^ (mask & (r ^ t))` picks one of the two words. */
  lemma XorSelect(mask: u64, r: nat, t: nat)
    requires mask == 0 || mask == 0x1_0000_0000_0000_0000 - 1
    ensures Xor(r, MaskAnd(mask, Xor(r, t))) == if mask == 0 then r else t
  {
    XorSelf(r, t);
    if mask == 0 {
      assert Xor(r, 0) == r;
    }
  }

  /** One borrow step of a 56-bit limb subtraction: the limb written and the borrow out. */
  method BorrowLimb(a: u64, pb: u64) returns (t: u64, b: u64)
    requires a < 0x100_0000_0000_0000 && pb <= 0x100_0000_0000_0000
    ensures t < 0x100_0000_0000_0000 && t == a - pb + b * 0x100_0000_0000_0000 && b == (if a < pb then 1 else 0)
  {
    b := Lt(a, pb);
    t := (a - pb + b * 0x100_0000_0000_0000) % 0x1_0000_0000_0000_0000;
  }

  /** t = r - m with the final borrow, the first half of reduce256_modm. */
  method SubtractOrder(r: array<u64>) returns (t: seq<u64>, b: u64)
    requires r.Length == 5 && Limbs(r[..], 0x100_0000_0000_0000)
    ensures |t| == 5
    ensures b == if Val(r[..]) < L then 1 else 0
    ensures b == 0 ==> Limbs(t, 0x100_0000_0000_0000) && Val(t) == Val(r[..]) - L
  {
    hide Val;
    var t0, t1, t2, t3, b0, b1, b2, b3;
    t0, b0 := BorrowLimb(r[0], 0x12_631a_5cf5_d3ed);
    t1, b1 := BorrowLimb(r[1], b0 + 0xf9_dea2_f79c_d658);
    t2, b2 := BorrowLimb(r[2], b1 + 0x14de);
    t3, b3 := BorrowLimb(r[3], b2 + 0x0);
    var pb: u64 := b3 + 0x1000_0000;
    b := Lt(r[4], pb);
    var t4: u64 := (r[4] - pb + b * 0x1_0000_0000) % 0x1_0000_0000_0000_0000;
    t := [t0, t1, t2, t3, t4];
    BorrowSum(r[..], t, b0, b1, b2, b3);
  }

  /** The limb differences add up to the difference of the numbers, whose sign is that of the top limb. */
  lemma BorrowSum(r: seq<int>, t: seq<int>, b0: int, b1: int, b2: int, b3: int)
    requires Limbs(r, 0x100_0000_0000_0000) && |t| == 5
    requires 0 <= t[0] < 0x100_0000_0000_0000 && 0 <= t[1] < 0x100_0000_0000_0000 && 0 <= t[2] < 0x100_0000_0000_0000
        && 0 <= t[3] < 0x100_0000_0000_0000
    requires t[0] == r[0] - 0x12_631a_5cf5_d3ed + b0 * 0x100_0000_0000_0000
    requires t[1] == r[1] - (b0 + 0xf9_dea2_f79c_d658) + b1 * 0x100_0000_0000_0000
    requires t[2] == r[2] - (b1 + 0x14de) + b2 * 0x100_0000_0000_0000
    requires t[3] == r[3] - (b2 + 0x0) + b3 * 0x100_0000_0000_0000
    ensures r[4] < b3 + 0x1000_0000 <==> Val(r) < L
    ensures t[4] == r[4] - (b3 + 0x1000_0000) ==> Val(t) == Val(r) - L
  {
    assert Val(r) - L == t[0] + 0x100_0000_0000_0000 * t[1] + 0x1_0000_0000_0000_0000_0000_0000_0000 * t[2]
        + 0x100_0000_0000_0000_0000_0000_0000_0000_0000_0000_0000 * t[3]
        + 0x1_0000_0000_0000_0000_0000_0000_0000_0000_0000_0000_0000_0000_0000_0000 * (r[4] - (b3 + 0x1000_0000));
  }

  /** reduce256_modm: one conditional subtraction of the order. */
  method Reduce256(r: array<u64>)
    requires r.Length == 5 && Limbs(r[..], 0x100_0000_0000_0000)
    modifies r
    ensures Limbs(r[..], 0x100_0000_0000_0000)
    ensures Val(r[..]) == old(if Val(r[..]) < L then Val(r[..]) else Val(r[..]) - L)
  {
    hide Xor;
    hide MaskAnd;
    hide Val;
    var t, b := SubtractOrder(r);
    var mask: u64 := if b == 0 then 0x1_0000_0000_0000_0000 - 1 else 0;
    ghost var s: seq<u64> := r[..];
    forall i | 0 <= i < 5
      ensures Xor(r[i], MaskAnd(mask, Xor(r[i], t[i]))) == if b == 1 then s[i] else t[i]
    {
      XorSelect(mask, r[i], t[i]);
    }
    r[0] := Xor(r[0], MaskAnd(mask, Xor(r[0], t[0])));
    r[1] := Xor(r[1], MaskAnd(mask, Xor(r[1], t[1])));
    r[2] := Xor(r[2], MaskAnd(mask, Xor(r[2], t[2])));
    r[3] := Xor(r[3], MaskAnd(mask, Xor(r[3], t[3])));
    r[4] := Xor(r[4], MaskAnd(mask, Xor(r[4], t[4])));
    assert r[..] == if b == 1 then s else t;
  }

  // ---------- Barrett reduction ----------

  /** A column sum is cut into its low 40 bits, the 16 above them, and the carry into the next column. */
  lemma ColumnParts(c: nat)
    ensures c == c % 0x100_0000_0000 + 0x100_0000_0000 * ((c % 0x100_0000_0000_0000) / 0x100_0000_0000)
        + 0x100_0000_0000_0000 * (c / 0x100_0000_0000_0000)
    ensures (c % 0x100_0000_0000_0000) / 0x100_0000_0000 < 0x1_0000
  {
  }

  /** `(f >> 40) & 0xffff` of the low word of a column. */
  lemma HighField(c: u128)
    ensures ((c % 0x1_0000_0000_0000_0000) / 0x100_0000_0000) % 0x1_0000 == (c % 0x100_0000_0000_0000) / 0x100_0000_0000
  {
    LowWord(c);
    FieldAbove(c % 0x1_0000_0000_0000_0000, 0x100_0000_0000, 0x1_0000);
  }

  /** The low 56 bits of a number are those of its low 64. */
  lemma LowWord(c: nat)
    ensures (c % 0x1_0000_0000_0000_0000) % 0x100_0000_0000_0000 == c % 0x100_0000_0000_0000
  {
    var q, r := c / 0x1_0000_0000_0000_0000, c % 0x1_0000_0000_0000_0000;
    assert c == 0x1_0000_0000_0000_0000 * q + r;
    ModShift(r, 0x100_0000_0000_0000, 0x100 * q);
  }

  /** The field of n values above the low m of a number. */
  lemma FieldAbove(r: nat, m: nat, n: nat)
    requires m > 0 && n > 0
    ensures m * n > 0 && (r / m) % n == (r % (m * n)) / m
  {
    assert m * n > 0;
    var t, u := r / m, r % m;
    var q, v := t / n, t % n;
    MulMono(m, v, n - 1);
    MulMono(m, 0, v);
    assert r == (m * n) * q + (m * v + u) by {
      assert r == m * t + u && t == n * q + v;
      assert m * (n * q) == (m * n) * q;
    }
    DivModUnique(r, m * n, q, m * v + u);
    DivModUnique(m * v + u, m, v, u);
  }

  /** `(f << 16) & (2^56 - 1)` of the low word of a column. */
  lemma LowField(c: u128)
    ensures (((c % 0x1_0000_0000_0000_0000) * 0x1_0000) % 0x1_0000_0000_0000_0000) % 0x100_0000_0000_0000
        == (c % 0x100_0000_0000) * 0x1_0000
  {
    var y := c % 0x1_0000_0000_0000_0000;
    var z := y % 0x1_0000_0000_0000;
    var t := z % 0x100_0000_0000;
    DivModUnique(c, 0x100_0000_0000,
        0x100_0000 * (c / 0x1_0000_0000_0000_0000) + 0x100 * (y / 0x1_0000_0000_0000) + z / 0x100_0000_0000, t);
    DivModUnique(y * 0x1_0000, 0x1_0000_0000_0000_0000, y / 0x1_0000_0000_0000, 0x1_0000 * z);
    DivModUnique(0x1_0000 * z, 0x100_0000_0000_0000, z / 0x100_0000_0000, 0x1_0000 * t);
  }

  lemma Or16(a: nat, x: nat)
    requires a < 0x1_0000
    ensures Or(a, x * 0x1_0000) == a + x * 0x1_0000
  {
    Pow2Bytes();
    MultipleMod(0x1_0000, x);
    OrDisjoint(a, x * 0x1_0000, 16);
  }

  /**
   One column of the first Barrett product: its low 40 bits complete the word begun by `a`, the 16 bits above
   begin the next word, the rest is carried.
   */
  method CutColumn(c: u128, a: u64) returns (word: u64, next: u64, f: u64, ghost low: nat)
    requires a < 0x1_0000 && c < 0x100_0000_0000_0000_0000_0000_0000_0000
    ensures low < 0x100_0000_0000 && next < 0x1_0000 && word == a + 0x1_0000 * low < 0x100_0000_0000_0000
    ensures c == low + 0x100_0000_0000 * next + 0x100_0000_0000_0000 * f
  {
    var g: u64 := c % 0x1_0000_0000_0000_0000;
    HighField(c);
    LowField(c);
    ColumnParts(c);
    low := c % 0x100_0000_0000;
    Or16(a, low);
    word := Or(a, ((g * 0x1_0000) % 0x1_0000_0000_0000_0000) % 0x100_0000_0000_0000);
    next := (g / 0x100_0000_0000) % 0x1_0000;
    f := c / 0x100_0000_0000_0000;
  }

  // ---------- schoolbook products ----------

  /** One row of the product. */
  lemma RowProduct(x: int, b: seq<int>)
    requires |b| == 5
    ensures x * Val(b) == x * b[0] + 0x100_0000_0000_0000 * (x * b[1])
        + 0x1_0000_0000_0000_0000_0000_0000_0000 * (x * b[2])
        + 0x100_0000_0000_0000_0000_0000_0000_0000_0000_0000_0000 * (x * b[3])
        + 0x1_0000_0000_0000_0000_0000_0000_0000_0000_0000_0000_0000_0000_0000_0000 * (x * b[4])
  {
  }

  lemma ProductColumns(a: seq<int>, b: seq<int>)
    requires |a| == 5 && |b| == 5
    ensures Val(a) * Val(b)
            == Column(a, b, 0) + 0x100_0000_0000_0000 * Column(a, b, 1)
                + 0x1_0000_0000_0000_0000_0000_0000_0000 * Column(a, b, 2)
                + 0x100_0000_0000_0000_0000_0000_0000_0000_0000_0000_0000 * Column(a, b, 3)
               + 0x1_0000_0000_0000_0000_0000_0000_0000_0000_0000_0000_0000_0000_0000_0000 * Column(a, b, 4)
               + 0x100_0000_0000_0000_0000_0000_0000_0000_0000_0000_0000_0000_0000_0000_0000_0000_0000_0000
                   * (Column(a, b, 5) + 0x100_0000_0000_0000 * Column(a, b, 6)
                   + 0x1_0000_0000_0000_0000_0000_0000_0000 * Column(a, b, 7)
                   + 0x100_0000_0000_0000_0000_0000_0000_0000_0000_0000_0000 * Column(a, b, 8))
  {
    RowProduct(a[0], b);
    RowProduct(a[1], b);
    RowProduct(a[2], b);
    RowProduct(a[3], b);
    RowProduct(a[4], b);
    Distribute(a, Val(b));
  }

  lemma Distribute(a: seq<int>, v: int)
    requires |a| == 5
    ensures Val(a) * v == a[0] * v + 0x100_0000_0000_0000 * (a[1] * v)
        + 0x1_0000_0000_0000_0000_0000_0000_0000 * (a[2] * v)
        + 0x100_0000_0000_0000_0000_0000_0000_0000_0000_0000_0000 * (a[3] * v)
        + 0x1_0000_0000_0000_0000_0000_0000_0000_0000_0000_0000_0000_0000_0000_0000 * (a[4] * v)
  {
  }

  lemma ColumnBound(a: seq<int>, b: seq<int>, k: nat)
    requires Limbs(a, 0x100_0000_0000_0000) && Limbs(b, 0x100_0000_0000_0000)
    ensures 0 <= Column(a, b, k) <= 5 * 0x1_0000_0000_0000_0000_0000_0000_0000
  {
    forall i, j | 0 <= i < 5 && 0 <= j < 5
      ensures 0 <= a[i] * b[j] < 0x1_0000_0000_0000_0000_0000_0000_0000
    {
      ProductBelow(a[i], b[j], 0x100_0000_0000_0000);
    }
  }


  /** The columns of mu * q1, cut up and reassembled, give back mu * q1 less what was dropped. */
  lemma EstimateSum(m: seq<int>, q: seq<int>, q3: seq<int>, r3: int, f3: int,
      l4: int, l5: int, l6: int, l7: int, l8: int, h4: int, h5: int, h6: int, h7: int, h8: int,
      f4: int, f5: int, f6: int, f7: int, f8: int)
    requires |m| == 5 && |q| == 5
    requires Column(m, q, 3) == r3 + 0x100_0000_0000_0000 * f3
    requires Column(m, q, 4) + f3 == l4 + 0x100_0000_0000 * h4 + 0x100_0000_0000_0000 * f4
    requires Column(m, q, 5) + f4 == l5 + 0x100_0000_0000 * h5 + 0x100_0000_0000_0000 * f5
    requires Column(m, q, 6) + f5 == l6 + 0x100_0000_0000 * h6 + 0x100_0000_0000_0000 * f6
    requires Column(m, q, 7) + f6 == l7 + 0x100_0000_0000 * h7 + 0x100_0000_0000_0000 * f7
    requires Column(m, q, 8) + f7 == l8 + 0x100_0000_0000 * h8 + 0x100_0000_0000_0000 * f8
    requires q3 == [h4 + 0x1_0000 * l5, h5 + 0x1_0000 * l6, h6 + 0x1_0000 * l7, h7 + 0x1_0000 * l8, h8 + 0x1_0000 * f8]
    ensures Val(m) * Val(q)
            == Column(m, q, 0) + 0x100_0000_0000_0000 * Column(m, q, 1)
                + 0x1_0000_0000_0000_0000_0000_0000_0000 * Column(m, q, 2)
                + 0x100_0000_0000_0000_0000_0000_0000_0000_0000_0000_0000 * r3
                + 0x1_0000_0000_0000_0000_0000_0000_0000_0000_0000_0000_0000_0000_0000_0000 * l4
               + 0x100_0000_0000_0000_0000_0000_0000_0000_0000_0000_0000_0000_0000_0000_0000_0000_0000 * Val(q3)
  {
    hide Column;
    ProductColumns(m, q);
  }

  /** modm_mu and modm_m as limb lists. */
  function MuLimbs(): seq<int> {
    [0x9c_e5a3_0a2c_131b, 0x21_5d08_6329_a7ed, 0xff_ffff_ffeb_2106, 0xff_ffff_ffff_ffff, 0xf_ffff_ffff]
  }

  function OrderLimbs(): seq<int> {
    [0x12_631a_5cf5_d3ed, 0xf9_dea2_f79c_d658, 0x14de, 0x0, 0x1000_0000]
  }

  lemma ConstantLimbs()
    ensures |MuLimbs()| == 5 && |OrderLimbs()| == 5
    ensures Limbs(MuLimbs(), 0x100_0000_0000) && Limbs(OrderLimbs(), 0x100_0000_0000)
    ensures Val(MuLimbs()) == 0xf_ffff_ffff_ffff_ffff_ffff_ffff_ffff_ffeb_2106_215d_0863_29a7_ed9c_e5a3_0a2c_131b
        && Val(OrderLimbs()) == L == 0x1000_0000_0000_0000_0000_0000_0000_0000_14de_f9de_a2f7_9cd6_5812_631a_5cf5_d3ed
  {
  }

  /** The three lowest columns and the bits shifted out come to less than 2^264 + 2^248. */
  lemma DroppedPart(m: seq<int>, q: seq<int>, r3: int, l4: int)
    requires Limbs(m, 0x100_0000_0000_0000) && Limbs(q, 0x100_0000_0000_0000) && 0 <= r3 < 0x100_0000_0000_0000
        && 0 <= l4 < 0x100_0000_0000
    ensures 0 <= Column(m, q, 0) + 0x100_0000_0000_0000 * Column(m, q, 1)
        + 0x1_0000_0000_0000_0000_0000_0000_0000 * Column(m, q, 2)
        + 0x100_0000_0000_0000_0000_0000_0000_0000_0000_0000_0000 * r3
        + 0x1_0000_0000_0000_0000_0000_0000_0000_0000_0000_0000_0000_0000_0000_0000 * l4
              < 0x100_0000_0000_0000_0000_0000_0000_0000_0000_0000_0000_0000_0000_0000_0000_0000_0000
                  + 0x100_0000_0000_0000_0000_0000_0000_0000_0000_0000_0000_0000_0000_0000_0000_0000
  {
    hide Column;
    ColumnBound(m, q, 0);
    ColumnBound(m, q, 1);
    ColumnBound(m, q, 2);
  }

  /** The last column's carry is small, so `q3[4] |= f << 16` loses nothing. */
  lemma TopCarry(m: seq<int>, q: seq<int>, f7: u64, low: nat, a: nat, f: u64)
    requires Limbs(m, 0x100_0000_0000) && Limbs(q, 0x100_0000_0000)
    requires a < 0x1_0000 && Column(m, q, 8) + f7 == low + 0x100_0000_0000 * a + 0x100_0000_0000_0000 * f
    ensures f < 0x1_0000_0000 && Or(a, (f * 0x1_0000) % 0x1_0000_0000_0000_0000) == a + 0x1_0000 * f
  {
    hide Or;
    assert Column(m, q, 8) == m[4] * q[4];
    hide Column;
    MulMono(m[4], q[4], 0x100_0000_0000);
    MulMono(0x100_0000_0000, m[4], 0x100_0000_0000);
    Or16(a, f);
    assert f < 0x1_0000_0000;
    DivModUnique(f * 0x1_0000, 0x1_0000_0000_0000_0000, 0, f * 0x1_0000);
  }

  /** q3 = mu * q1 >> 264 without the three lowest columns. */
  method QuotientEstimate(q1: array<u64>) returns (q3: seq<u64>)
    requires q1.Length == 5 && Limbs(q1[..], 0x100_0000_0000)
    ensures Limbs(q3, 0x100_0000_0000_0000)
    ensures 0 <= 0xf_ffff_ffff_ffff_ffff_ffff_ffff_ffff_ffeb_2106_215d_0863_29a7_ed9c_e5a3_0a2c_131b * Val(q1[..])
        - 0x100_0000_0000_0000_0000_0000_0000_0000_0000_0000_0000_0000_0000_0000_0000_0000_0000 * Val(q3)
        < 0x100_0000_0000_0000_0000_0000_0000_0000_0000_0000_0000_0000_0000_0000_0000_0000_0000
        + 0x100_0000_0000_0000_0000_0000_0000_0000_0000_0000_0000_0000_0000_0000_0000_0000
  {
    hide Or;
    hide Column;
    hide Val;
    var mu, q: seq<int> := MuLimbs(), q1[..];
    ConstantLimbs();
    hide MuLimbs;
    ghost var l4, l5, l6, l7, l8;
    var w, a0, a1, a2, a3, a4, f3: u64, f4, f5, f6, f7, f8;
    forall k: nat { ColumnBound(mu, q, k); }
    var c: u128 := Column(mu, q, 3);
    f3 := c / 0x100_0000_0000_0000;
    ghost var r3 := c % 0x100_0000_0000_0000;
    c := Column(mu, q, 4) + f3;
    w, a0, f4, l4 := CutColumn(c, 0);
    c := Column(mu, q, 5) + f4;
    ghost var h4 := a0;
    a0, a1, f5, l5 := CutColumn(c, a0);
    c := Column(mu, q, 6) + f5;
    ghost var h5 := a1;
    a1, a2, f6, l6 := CutColumn(c, a1);
    c := Column(mu, q, 7) + f6;
    ghost var h6 := a2;
    a2, a3, f7, l7 := CutColumn(c, a2);
    c := Column(mu, q, 8) + f7;
    ghost var h7 := a3;
    a3, a4, f8, l8 := CutColumn(c, a3);
    ghost var h8 := a4;
    TopCarry(mu, q, f7, l8, h8, f8);
    a4 := Or(a4, (f8 * 0x1_0000) % 0x1_0000_0000_0000_0000);
    q3 := [a0, a1, a2, a3, a4];
    EstimateSum(mu, q, q3, r3, f3, l4, l5, l6, l7, l8, h4, h5, h6, h7, h8, f4, f5, f6, f7, f8);
    DroppedPart(mu, q, r3, l4);
  }

  /** `lo128(c) & (2^56 - 1)` and `c >> 56`. */
  method Carry56(c: u128) returns (w: u64, f: u64)
    requires c < 0x100_0000_0000_0000_0000_0000_0000_0000
    ensures w < 0x100_0000_0000_0000 && c == w + 0x100_0000_0000_0000 * f
  {
    var g: u64 := c % 0x1_0000_0000_0000_0000;
    w := g % 0x100_0000_0000_0000;
    DivModUnique(c, 0x100_0000_0000_0000, 0x100 * (c / 0x1_0000_0000_0000_0000) + g / 0x100_0000_0000_0000, w);
    f := c / 0x100_0000_0000_0000;
  }

  /** r2 = q3 * m mod 2^264. */
  method LowProduct(q3: seq<u64>) returns (r2: seq<u64>)
    requires Limbs(q3, 0x100_0000_0000_0000)
    ensures Limbs(r2, 0x100_0000_0000)
    ensures (0x1000_0000_0000_0000_0000_0000_0000_0000_14de_f9de_a2f7_9cd6_5812_631a_5cf5_d3ed * Val(q3) - Val(r2))
        % 0x100_0000_0000_0000_0000_0000_0000_0000_0000_0000_0000_0000_0000_0000_0000_0000_0000 == 0
  {
    hide Column;
    hide Val;
    var m := OrderLimbs();
    ConstantLimbs();
    hide OrderLimbs;
    forall k: nat { ColumnBound(m, q3, k); }
    var r20, r21, r22, r23, f0, f1, f2, f3;
    r20, f0 := Carry56(Column(m, q3, 0));
    r21, f1 := Carry56(Column(m, q3, 1) + f0);
    r22, f2 := Carry56(Column(m, q3, 2) + f1);
    r23, f3 := Carry56(Column(m, q3, 3) + f2);
    var c: u128 := Column(m, q3, 4) + f3;
    var g: u64 := c % 0x1_0000_0000_0000_0000;
    var r24: u64 := g % 0x100_0000_0000;
    r2 := [r20, r21, r22, r23, r24];
    LowProductSum(m, q3, r2, f0, f1, f2, f3, c / 0x100_0000_0000);
  }

  lemma LowProductSum(m: seq<int>, q: seq<int>, r2: seq<int>, f0: int, f1: int, f2: int, f3: int, f4: int)
    requires |m| == 5 && |q| == 5 && |r2| == 5
    requires Column(m, q, 0) == r2[0] + 0x100_0000_0000_0000 * f0
    requires Column(m, q, 1) + f0 == r2[1] + 0x100_0000_0000_0000 * f1
    requires Column(m, q, 2) + f1 == r2[2] + 0x100_0000_0000_0000 * f2
    requires Column(m, q, 3) + f2 == r2[3] + 0x100_0000_0000_0000 * f3
    requires Column(m, q, 4) + f3 == r2[4] + 0x100_0000_0000 * f4
    ensures (Val(m) * Val(q) - Val(r2))
        % 0x100_0000_0000_0000_0000_0000_0000_0000_0000_0000_0000_0000_0000_0000_0000_0000_0000 == 0
  {
    hide Column;
    ProductColumns(m, q);
    var k := f4 + 0x1_0000 * Column(m, q, 5) + 0x1_0000 * 0x100_0000_0000_0000 * Column(m, q, 6)
           + 0x1_0000 * 0x1_0000_0000_0000_0000_0000_0000_0000 * Column(m, q, 7)
               + 0x1_0000 * 0x100_0000_0000_0000_0000_0000_0000_0000_0000_0000_0000 * Column(m, q, 8);
    assert Val(m) * Val(q) - Val(r2)
        == 0x100_0000_0000_0000_0000_0000_0000_0000_0000_0000_0000_0000_0000_0000_0000_0000_0000 * k;
  }

  /** r = r1 - r2 mod 2^264, in place. `r` may be the array `r1` itself. */
  method SubtractLow(r: array<u64>, r1: array<u64>, r2: seq<u64>)
    requires r.Length == 5 && r1.Length == 5
    requires Limbs(r1[..], 0x100_0000_0000) && Limbs(r2, 0x100_0000_0000)
    modifies r
    ensures Limbs(r[..], 0x100_0000_0000)
    ensures (Val(r[..]) - (old(Val(r1[..])) - Val(r2)))
        % 0x100_0000_0000_0000_0000_0000_0000_0000_0000_0000_0000_0000_0000_0000_0000_0000_0000 == 0
  {
    hide Val;
    ghost var s: seq<u64> := r1[..];
    var t, b0, b1, b2, b3;
    t, b0 := BorrowLimb(r1[0], r2[0]); r[0] := t;
    t, b1 := BorrowLimb(r1[1], b0 + r2[1]); r[1] := t;
    t, b2 := BorrowLimb(r1[2], b1 + r2[2]); r[2] := t;
    t, b3 := BorrowLimb(r1[3], b2 + r2[3]); r[3] := t;
    var pb: u64 := b3 + r2[4];
    var b := Lt(r1[4], pb);
    r[4] := (r1[4] - pb + b * 0x100_0000_0000) % 0x1_0000_0000_0000_0000;
    SubtractLowSum(s, r2, r[..], b0, b1, b2, b3, b);
  }

  lemma SubtractLowSum(s: seq<int>, r2: seq<int>, r: seq<int>, b0: int, b1: int, b2: int, b3: int, b4: int)
    requires |s| == 5 && |r2| == 5 && |r| == 5
    requires r[0] == s[0] - r2[0] + b0 * 0x100_0000_0000_0000
    requires r[1] == s[1] - (b0 + r2[1]) + b1 * 0x100_0000_0000_0000
    requires r[2] == s[2] - (b1 + r2[2]) + b2 * 0x100_0000_0000_0000
    requires r[3] == s[3] - (b2 + r2[3]) + b3 * 0x100_0000_0000_0000
    requires r[4] == s[4] - (b3 + r2[4]) + b4 * 0x100_0000_0000
    ensures (Val(r) - (Val(s) - Val(r2)))
        % 0x100_0000_0000_0000_0000_0000_0000_0000_0000_0000_0000_0000_0000_0000_0000_0000_0000 == 0
  {
    assert Val(r) - (Val(s) - Val(r2))
        == 0x100_0000_0000_0000_0000_0000_0000_0000_0000_0000_0000_0000_0000_0000_0000_0000_0000 * b4;
  }

  /** The estimate is at most two short, so what is left is below three times the order. */
  lemma EstimateIsClose(x: nat, q1: int, q3: int)
    requires x < TWO512 && q1 == x / 0x100_0000_0000_0000_0000_0000_0000_0000_0000_0000_0000_0000_0000_0000_0000_0000
    requires 0 <= 0xf_ffff_ffff_ffff_ffff_ffff_ffff_ffff_ffeb_2106_215d_0863_29a7_ed9c_e5a3_0a2c_131b * q1
        - 0x100_0000_0000_0000_0000_0000_0000_0000_0000_0000_0000_0000_0000_0000_0000_0000_0000 * q3
        < 0x100_0000_0000_0000_0000_0000_0000_0000_0000_0000_0000_0000_0000_0000_0000_0000_0000
        + 0x100_0000_0000_0000_0000_0000_0000_0000_0000_0000_0000_0000_0000_0000_0000_0000
    ensures 0 <= x - 0x1000_0000_0000_0000_0000_0000_0000_0000_14de_f9de_a2f7_9cd6_5812_631a_5cf5_d3ed * q3
        < 3 * 0x1000_0000_0000_0000_0000_0000_0000_0000_14de_f9de_a2f7_9cd6_5812_631a_5cf5_d3ed
  {
  }

  lemma RemainderFits(x: nat, q3: int, r1: int, p: int, r2: int, r: int)
    requires 0 <= x - p < 3 * 0x1000_0000_0000_0000_0000_0000_0000_0000_14de_f9de_a2f7_9cd6_5812_631a_5cf5_d3ed
        && r1 == x % 0x100_0000_0000_0000_0000_0000_0000_0000_0000_0000_0000_0000_0000_0000_0000_0000_0000
        && 0 <= r < 0x100_0000_0000_0000_0000_0000_0000_0000_0000_0000_0000_0000_0000_0000_0000_0000_0000
    requires (p - r2) % 0x100_0000_0000_0000_0000_0000_0000_0000_0000_0000_0000_0000_0000_0000_0000_0000_0000 == 0
        && (r - (r1 - r2)) % 0x100_0000_0000_0000_0000_0000_0000_0000_0000_0000_0000_0000_0000_0000_0000_0000_0000 == 0
    ensures r == x - p
  {
    var i, j, k := (p - r2) / 0x100_0000_0000_0000_0000_0000_0000_0000_0000_0000_0000_0000_0000_0000_0000_0000_0000,
        (r - (r1 - r2)) / 0x100_0000_0000_0000_0000_0000_0000_0000_0000_0000_0000_0000_0000_0000_0000_0000_0000,
        x / 0x100_0000_0000_0000_0000_0000_0000_0000_0000_0000_0000_0000_0000_0000_0000_0000_0000;
    assert r - (x - p) == 0x100_0000_0000_0000_0000_0000_0000_0000_0000_0000_0000_0000_0000_0000_0000_0000_0000
        * (i + j - k);
    SmallMultiple(0x100_0000_0000_0000_0000_0000_0000_0000_0000_0000_0000_0000_0000_0000_0000_0000_0000, i + j - k,
        r - (x - p));
  }

  /** barrett_reduce256_modm, for x = q1 * 2^248 + (x mod 2^248) and r1 = x mod 2^264. */
  method BarrettReduce256(r: array<u64>, q1: array<u64>, r1: array<u64>, ghost x: nat)
    requires r.Length == 5 && q1.Length == 5 && r1.Length == 5
    requires x < TWO512
    requires Limbs(q1[..], 0x100_0000_0000)
        && Val(q1[..]) == x / 0x100_0000_0000_0000_0000_0000_0000_0000_0000_0000_0000_0000_0000_0000_0000_0000
    requires Limbs(r1[..], 0x100_0000_0000)
        && Val(r1[..]) == x % 0x100_0000_0000_0000_0000_0000_0000_0000_0000_0000_0000_0000_0000_0000_0000_0000_0000
    modifies r
    ensures Limbs(r[..], 0x1_0000_0000)
    ensures Val(r[..]) == x % L
  {
    hide Val;
    ConstantLimbs();
    var q3 := QuotientEstimate(q1);
    EstimateIsClose(x, Val(q1[..]), Val(q3));
    var r2 := LowProduct(q3);
    SubtractLow(r, r1, r2);
    ValRange(r[..], 0x100_0000_0000);
    ghost var y := Val(r[..]);
    RemainderFits(x, Val(q3),
        x % 0x100_0000_0000_0000_0000_0000_0000_0000_0000_0000_0000_0000_0000_0000_0000_0000_0000,
        0x1000_0000_0000_0000_0000_0000_0000_0000_14de_f9de_a2f7_9cd6_5812_631a_5cf5_d3ed * Val(q3), Val(r2), y);
    Reduce256(r);
    Reduce256(r);
    ReducedTop(r[..]);
    ModOrder(x, Val(q3), y, Val(r[..]));
  }

  lemma ValRange(s: seq<int>, top: int)
    requires Limbs(s, top)
    ensures 0 <= Val(s)
    ensures top == 0x100_0000_0000 ==>
        Val(s) < 0x100_0000_0000_0000_0000_0000_0000_0000_0000_0000_0000_0000_0000_0000_0000_0000_0000
    ensures top == 0x1_0000_0000 ==>
        Val(s) < 0x1_0000_0000_0000_0000_0000_0000_0000_0000_0000_0000_0000_0000_0000_0000_0000_0000
  {
  }

  lemma ReducedTop(s: seq<int>)
    requires Limbs(s, 0x100_0000_0000_0000) && Val(s) < L
    ensures Limbs(s, 0x1_0000_0000)
  {
    ConstantLimbs();
  }

  lemma ModOrder(x: int, q: int, y: int, z: int)
    requires y == x - 0x1000_0000_0000_0000_0000_0000_0000_0000_14de_f9de_a2f7_9cd6_5812_631a_5cf5_d3ed * q
        && 0 <= z < L && (z == y || z == y - L || z == y - 2 * L)
    ensures z == x % L
  {
    ConstantLimbs();
    DivModUnique(x, 0x1000_0000_0000_0000_0000_0000_0000_0000_14de_f9de_a2f7_9cd6_5812_631a_5cf5_d3ed,
        if z == y then q else if z == y - L then q + 1 else q + 2, z);
  }

  // ---------- addition and multiplication ----------

  /** One limb of add256_modm: the limb written and the carry. */
  method AddLimb(a: u64, b: u64, carry: u64) returns (w: u64, c: u64)
    requires a < 0x100_0000_0000_0000 && b < 0x100_0000_0000_0000 && carry <= 1
    ensures w < 0x100_0000_0000_0000 && c <= 1 && a + b + carry == w + 0x100_0000_0000_0000 * c
  {
    c := carry + a + b;
    w := c % 0x100_0000_0000_0000;
    c := c / 0x100_0000_0000_0000;
  }

  /** add256_modm: the sum, less the order when it is at least the order. `r` may be `x` or `y`. */
  method Add256(r: array<u64>, x: array<u64>, y: array<u64>)
    requires r.Length == 5 && x.Length == 5 && y.Length == 5
    requires Limbs(x[..], 0x1_0000_0000) && Limbs(y[..], 0x1_0000_0000)
    modifies r
    ensures Limbs(r[..], 0x100_0000_0000_0000)
    ensures Val(r[..]) == old(if Val(x[..]) + Val(y[..]) < L then Val(x[..]) + Val(y[..])
                              else Val(x[..]) + Val(y[..]) - L)
    ensures old(Val(x[..]) < L && Val(y[..]) < L) ==> Val(r[..]) == (old(Val(x[..])) + old(Val(y[..]))) % L
    ensures old(Val(x[..]) < L && Val(y[..]) < L) ==> Limbs(r[..], 0x1_0000_0000)
  {
    hide Val;
    ghost var v, u := Val(x[..]), Val(y[..]);
    ghost var s: seq<u64>, t: seq<u64> := x[..], y[..];
    ValRange(s, 0x1_0000_0000);
    ValRange(t, 0x1_0000_0000);
    var w, c0, c1, c2, c3;
    w, c0 := AddLimb(x[0], y[0], 0); r[0] := w;
    w, c1 := AddLimb(x[1], y[1], c0); r[1] := w;
    w, c2 := AddLimb(x[2], y[2], c1); r[2] := w;
    w, c3 := AddLimb(x[3], y[3], c2); r[3] := w;
    r[4] := c3 + x[4] + y[4];
    AddSum(s, t, r[..], c0, c1, c2, c3);
    Reduce256(r);
    if v < L && u < L {
      ReducedTop(r[..]);
      ModOrder(v + u, 0, v + u, Val(r[..]));
    }
  }

  lemma AddSum(s: seq<int>, t: seq<int>, r: seq<int>, c0: int, c1: int, c2: int, c3: int)
    requires |s| == 5 && |t| == 5 && |r| == 5
    requires s[0] + t[0] == r[0] + 0x100_0000_0000_0000 * c0
    requires c0 + s[1] + t[1] == r[1] + 0x100_0000_0000_0000 * c1
    requires c1 + s[2] + t[2] == r[2] + 0x100_0000_0000_0000 * c2
    requires c2 + s[3] + t[3] == r[3] + 0x100_0000_0000_0000 * c3
    requires c3 + s[4] + t[4] == r[4]
    ensures Val(r) == Val(s) + Val(t)
  {
  }

  lemma Or32(a: nat, x: nat)
    requires a < 0x1_0000_0000
    ensures Or(a, x * 0x1_0000_0000) == a + x * 0x1_0000_0000
  {
    Pow2Bytes();
    MultipleMod(0x1_0000_0000, x);
    OrDisjoint(a, x * 0x1_0000_0000, 32);
  }

  lemma ProductParts(c: u128)
    ensures c == c % 0x100_0000 + 0x100_0000 * ((c % 0x100_0000_0000_0000) / 0x100_0000)
        + 0x100_0000_0000_0000 * (c / 0x100_0000_0000_0000)
    ensures (c % 0x100_0000_0000_0000) / 0x100_0000 < 0x1_0000_0000
  {
    var y := c % 0x100_0000_0000_0000;
    DivModUnique(c, 0x100_0000, 0x1_0000_0000 * (c / 0x100_0000_0000_0000) + y / 0x100_0000, y % 0x100_0000);
  }

  lemma LowProductField(c: u128)
    ensures (((c % 0x1_0000_0000_0000_0000) * 0x1_0000_0000) % 0x1_0000_0000_0000_0000) % 0x100_0000_0000_0000
        == (c % 0x100_0000) * 0x1_0000_0000
  {
    WordField(c % 0x1_0000_0000_0000_0000);
    assert (c % 0x1_0000_0000_0000_0000) % 0x100_0000 == c % 0x100_0000;
  }

  lemma WordField(y: u64)
    ensures ((y * 0x1_0000_0000) % 0x1_0000_0000_0000_0000) % 0x100_0000_0000_0000 == (y % 0x100_0000) * 0x1_0000_0000
  {
    var z := y % 0x1_0000_0000;
    var t := z % 0x100_0000;
    DivModUnique(y, 0x100_0000, 0x100 * (y / 0x1_0000_0000) + z / 0x100_0000, t);
    DivModUnique(y * 0x1_0000_0000, 0x1_0000_0000_0000_0000, y / 0x1_0000_0000, 0x1_0000_0000 * z);
    DivModUnique(0x1_0000_0000 * z, 0x100_0000_0000_0000, z / 0x100_0000, 0x1_0000_0000 * t);
  }

  lemma ProductField(c: u128)
    ensures ((c % 0x1_0000_0000_0000_0000) / 0x100_0000) % 0x1_0000_0000 == (c % 0x100_0000_0000_0000) / 0x100_0000
  {
    LowWord(c);
    FieldAbove(c % 0x1_0000_0000_0000_0000, 0x100_0000, 0x1_0000_0000);
  }

  /** One column of the full product: 24 bits complete the word begun by `a`, 32 begin the next one. */
  method SplitColumn(c: u128, a: u64) returns (word: u64, next: u64, f: u64, ghost low: nat)
    requires a < 0x1_0000_0000 && c < 0x100_0000_0000_0000_0000_0000_0000_0000
    ensures low < 0x100_0000 && next < 0x1_0000_0000 && word == a + 0x1_0000_0000 * low < 0x100_0000_0000_0000
    ensures c == low + 0x100_0000 * next + 0x100_0000_0000_0000 * f
  {
    var g: u64 := c % 0x1_0000_0000_0000_0000;
    ProductParts(c);
    ProductField(c);
    LowProductField(c);
    low := c % 0x100_0000;
    Or32(a, low);
    word := Or(a, ((g * 0x1_0000_0000) % 0x1_0000_0000_0000_0000) % 0x100_0000_0000_0000);
    next := (g / 0x100_0000) % 0x1_0000_0000;
    f := c / 0x100_0000_0000_0000;
  }

  lemma ProductSum(x: seq<int>, y: seq<int>, q1: seq<int>, w0: int, w1: int, w2: int, w3: int,
      l4: int, l5: int, l6: int, l7: int, l8: int, h4: int, h5: int, h6: int, h7: int, h8: int,
      f0: int, f1: int, f2: int, f3: int, f4: int, f5: int, f6: int, f7: int, f8: int)
    requires |x| == 5 && |y| == 5
    requires Column(x, y, 0) == w0 + 0x100_0000_0000_0000 * f0
    requires Column(x, y, 1) + f0 == w1 + 0x100_0000_0000_0000 * f1
    requires Column(x, y, 2) + f1 == w2 + 0x100_0000_0000_0000 * f2
    requires Column(x, y, 3) + f2 == w3 + 0x100_0000_0000_0000 * f3
    requires Column(x, y, 4) + f3 == l4 + 0x100_0000 * h4 + 0x100_0000_0000_0000 * f4
    requires Column(x, y, 5) + f4 == l5 + 0x100_0000 * h5 + 0x100_0000_0000_0000 * f5
    requires Column(x, y, 6) + f5 == l6 + 0x100_0000 * h6 + 0x100_0000_0000_0000 * f6
    requires Column(x, y, 7) + f6 == l7 + 0x100_0000 * h7 + 0x100_0000_0000_0000 * f7
    requires Column(x, y, 8) + f7 == l8 + 0x100_0000 * h8 + 0x100_0000_0000_0000 * f8
    requires q1 == [h4 + 0x1_0000_0000 * l5, h5 + 0x1_0000_0000 * l6, h6 + 0x1_0000_0000 * l7, h7 + 0x1_0000_0000 * l8,
        h8 + 0x1_0000_0000 * f8]
    ensures Val(x) * Val(y)
        == Val([w0, w1, w2, w3, l4])
        + 0x100_0000_0000_0000_0000_0000_0000_0000_0000_0000_0000_0000_0000_0000_0000_0000 * Val(q1)
  {
    hide Column;
    ProductColumns(x, y);
  }

  /** Both halves handed to the Barrett step are read off one decomposition of the product. */
  lemma ProductHalves(p: int, w0: int, w1: int, w2: int, w3: int, l4: int, h4: int, rest: int, q: int)
    requires 0 <= w0 < 0x100_0000_0000_0000 && 0 <= w1 < 0x100_0000_0000_0000 && 0 <= w2 < 0x100_0000_0000_0000
        && 0 <= w3 < 0x100_0000_0000_0000 && 0 <= l4 < 0x100_0000
    requires p == Val([w0, w1, w2, w3, l4])
        + 0x100_0000_0000_0000_0000_0000_0000_0000_0000_0000_0000_0000_0000_0000_0000_0000 * q
        && q == h4 + 0x1_0000_0000 * rest && 0 <= h4 < 0x1_0000_0000
    ensures p / 0x100_0000_0000_0000_0000_0000_0000_0000_0000_0000_0000_0000_0000_0000_0000_0000 == q
    ensures p % 0x100_0000_0000_0000_0000_0000_0000_0000_0000_0000_0000_0000_0000_0000_0000_0000_0000
        == Val([w0, w1, w2, w3, l4 + 0x100_0000 * (h4 % 0x1_0000)])
  {
    var v := Val([w0, w1, w2, w3, l4]);
    DivModUnique(p, 0x100_0000_0000_0000_0000_0000_0000_0000_0000_0000_0000_0000_0000_0000_0000_0000, q, v);
    DivModUnique(p, 0x100_0000_0000_0000_0000_0000_0000_0000_0000_0000_0000_0000_0000_0000_0000_0000_0000,
        h4 / 0x1_0000 + 0x1_0000 * rest,
        v + 0x100_0000_0000_0000_0000_0000_0000_0000_0000_0000_0000_0000_0000_0000_0000_0000 * (h4 % 0x1_0000));
  }

  /** The full product cut into q1 = xy >> 248 and r1 = xy mod 2^264. */
  method SplitProduct(a: seq<int>, b: seq<int>) returns (q1: seq<u64>, r1: seq<u64>)
    requires Limbs(a, 0x1_0000_0000) && Limbs(b, 0x1_0000_0000)
    ensures 0 <= Val(a) * Val(b) < TWO512
    ensures Limbs(q1, 0x100_0000_0000)
        && Val(q1) == (Val(a) * Val(b))
        / 0x100_0000_0000_0000_0000_0000_0000_0000_0000_0000_0000_0000_0000_0000_0000_0000
    ensures Limbs(r1, 0x100_0000_0000)
        && Val(r1) == (Val(a) * Val(b))
        % 0x100_0000_0000_0000_0000_0000_0000_0000_0000_0000_0000_0000_0000_0000_0000_0000_0000
  {
    hide Or;
    hide Column;
    hide Val;
    forall k: nat { ColumnBound(a, b, k); }
    ghost var l4, l5, l6, l7, l8;
    var w, w0, w1, w2, w3, a0, a1, a2, a3, a4, f0, f1, f2, f3, f4, f5, f6, f7, f8;
    w0, f0 := Carry56(Column(a, b, 0));
    w1, f1 := Carry56(Column(a, b, 1) + f0);
    w2, f2 := Carry56(Column(a, b, 2) + f1);
    w3, f3 := Carry56(Column(a, b, 3) + f2);
    var c: u128 := Column(a, b, 4) + f3;
    var w4: u64 := (c % 0x1_0000_0000_0000_0000) % 0x100_0000_0000;
    w, a0, f4, l4 := SplitColumn(c, 0);
    TopLimb(c, l4, a0, f4);
    ghost var h4 := a0;
    a0, a1, f5, l5 := SplitColumn(Column(a, b, 5) + f4, a0);
    ghost var h5 := a1;
    a1, a2, f6, l6 := SplitColumn(Column(a, b, 6) + f5, a1);
    ghost var h6 := a2;
    a2, a3, f7, l7 := SplitColumn(Column(a, b, 7) + f6, a2);
    ghost var h7 := a3;
    a3, a4, f8, l8 := SplitColumn(Column(a, b, 8) + f7, a3);
    ghost var h8 := a4;
    TopColumn(a, b, f7, l8, h8, f8);
    a4 := Or(a4, (f8 * 0x1_0000_0000) % 0x1_0000_0000_0000_0000);
    q1 := [a0, a1, a2, a3, a4];
    r1 := [w0, w1, w2, w3, w4];
    ProductSum(a, b, q1, w0, w1, w2, w3, l4, l5, l6, l7, l8, h4, h5, h6, h7, h8,
               f0, f1, f2, f3, f4, f5, f6, f7, f8);
    RestOfQuotient(q1, h4, l5);
    ProductHalves(Val(a) * Val(b), w0, w1, w2, w3, l4, h4, (Val(q1) - h4) / 0x1_0000_0000, Val(q1));
    ProductRange(a, b);
    QuotientTop(Val(a) * Val(b), q1);
  }

  /** mul256_modm: the product modulo the order, for any two numbers below 2^256. */
  method Mul256(r: array<u64>, x: array<u64>, y: array<u64>)
    requires r.Length == 5 && x.Length == 5 && y.Length == 5
    requires Limbs(x[..], 0x1_0000_0000) && Limbs(y[..], 0x1_0000_0000)
    modifies r
    ensures Limbs(r[..], 0x1_0000_0000)
    ensures Val(r[..]) == (old(Val(x[..])) * old(Val(y[..]))) % L
  {
    hide Val;
    hide Limbs;
    ghost var p := Val(x[..]) * Val(y[..]);
    var q, s := SplitProduct(x[..], y[..]);
    LimbRange(q, 0x100_0000_0000);
    LimbRange(s, 0x100_0000_0000);
    var q1, r1 := new u64[5], new u64[5];
    q1[0], q1[1], q1[2], q1[3], q1[4] := q[0], q[1], q[2], q[3], q[4];
    r1[0], r1[1], r1[2], r1[3], r1[4] := s[0], s[1], s[2], s[3], s[4];
    assert q1[..] == q && r1[..] == s;
    BarrettReduce256(r, q1, r1, p);
  }

  lemma LimbRange(s: seq<int>, top: int)
    requires Limbs(s, top)
    ensures |s| == 5 && forall i :: 0 <= i < 5 ==> 0 <= s[i] < 0x100_0000_0000_0000
  {
  }

  lemma TopLimb(c: u128, low: nat, next: nat, f: nat)
    requires low < 0x100_0000 && next < 0x1_0000_0000 && c == low + 0x100_0000 * next + 0x100_0000_0000_0000 * f
    ensures (c % 0x1_0000_0000_0000_0000) % 0x100_0000_0000 == low + 0x100_0000 * (next % 0x1_0000)
  {
    DivModUnique(c, 0x100_0000_0000, next / 0x1_0000 + 0x1_0000 * f, low + 0x100_0000 * (next % 0x1_0000));
    DivModUnique(c, 0x100_0000_0000,
        0x100_0000 * (c / 0x1_0000_0000_0000_0000) + (c % 0x1_0000_0000_0000_0000) / 0x100_0000_0000,
        (c % 0x1_0000_0000_0000_0000) % 0x100_0000_0000);
  }

  lemma TopColumn(x: seq<int>, y: seq<int>, f7: u64, low: nat, a: nat, f: u64)
    requires Limbs(x, 0x1_0000_0000) && Limbs(y, 0x1_0000_0000)
    requires a < 0x1_0000_0000 && Column(x, y, 8) + f7 == low + 0x100_0000 * a + 0x100_0000_0000_0000 * f
    ensures f < 0x1000 && Or(a, (f * 0x1_0000_0000) % 0x1_0000_0000_0000_0000) == a + 0x1_0000_0000 * f
        < 0x100_0000_0000_0000
  {
    MulMono(x[4], y[4], 0x1_0000_0000 - 1);
    MulMono(0x1_0000_0000 - 1, x[4], 0x1_0000_0000 - 1);
    Or32(a, f);
  }

  lemma QuotientTop(p: nat, q: seq<int>)
    requires p < TWO512 && Limbs(q, 0x100_0000_0000_0000)
        && Val(q) == p / 0x100_0000_0000_0000_0000_0000_0000_0000_0000_0000_0000_0000_0000_0000_0000_0000
    ensures Limbs(q, 0x100_0000_0000)
  {
  }

  lemma RestOfQuotient(q: seq<int>, h4: int, l5: int)
    requires |q| == 5 && q[0] == h4 + 0x1_0000_0000 * l5
    ensures Val(q) == h4 + 0x1_0000_0000 * ((Val(q) - h4) / 0x1_0000_0000)
  {
    assert Val(q) - h4 == 0x1_0000_0000
        * (l5 + 0x100_0000 * q[1] + 0x1_0000_0000_0000_0000_0000 * q[2]
        + 0x100_0000_0000_0000_0000_0000_0000_0000_0000 * q[3]
        + 0x1_0000_0000_0000_0000_0000_0000_0000_0000_0000_0000_0000_0000 * q[4]);
  }

  lemma ProductRange(x: seq<int>, y: seq<int>)
    requires Limbs(x, 0x1_0000_0000) && Limbs(y, 0x1_0000_0000)
    ensures 0 <= Val(x) * Val(y) < TWO512
  {
    ValRange(x, 0x1_0000_0000);
    ValRange(y, 0x1_0000_0000);
    MulMono(Val(x), Val(y), 0x1_0000_0000_0000_0000_0000_0000_0000_0000_0000_0000_0000_0000_0000_0000_0000_0000);
    MulMono(0x1_0000_0000_0000_0000_0000_0000_0000_0000_0000_0000_0000_0000_0000_0000_0000_0000, Val(x),
        0x1_0000_0000_0000_0000_0000_0000_0000_0000_0000_0000_0000_0000_0000_0000_0000_0000);
    MulMono(Val(x), 0, Val(y));
    ProductStrict(Val(x), Val(y));
  }

  lemma ProductStrict(v: int, w: int)
    requires 0 <= v < 0x1_0000_0000_0000_0000_0000_0000_0000_0000_0000_0000_0000_0000_0000_0000_0000_0000
        && 0 <= w < 0x1_0000_0000_0000_0000_0000_0000_0000_0000_0000_0000_0000_0000_0000_0000_0000_0000
    ensures v * w < TWO512
  {
    MulMono(v, w, 0x1_0000_0000_0000_0000_0000_0000_0000_0000_0000_0000_0000_0000_0000_0000_0000_0000 - 1);
    MulMono(0x1_0000_0000_0000_0000_0000_0000_0000_0000_0000_0000_0000_0000_0000_0000_0000_0000 - 1, v,
        0x1_0000_0000_0000_0000_0000_0000_0000_0000_0000_0000_0000_0000_0000_0000_0000_0000 - 1);
  }
}
