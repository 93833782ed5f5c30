/**
 The constants of the model against section 5.1 of RFC 8032, and the curve and its addition law as equations in
 integers modulo p.
 */
module StandardCurve {
  import opened Numbers
  import opened Bytes
  import opened Scalars
  import opened Modm
  import opened Field25519
  import opened EdwardsLaw
  import opened BaseMult
  import opened PointBytes
  import opened Signatures

  // ---------- constants ----------

  lemma ModulusIs()
    ensures P == Pow2(255) - 19
  {
    Pow2Of256();
    hide Pow2;
  }

  lemma OrderIs()
    ensures L == Pow2(252) + 27742317777372353535851937790883648493
  {
    Pow2Of256();
    Pow2Add(252, 3);
    assert Pow2(3) == 8;
    hide Pow2;
  }

  /** d is -121665/121666, and the other constant twice that. */
  lemma CurveConstants()
    ensures 0 < D < P && FMul(D, 121666) == FSub(0, 121665) && D2 == FAdd(D, D)
  {
    hide FMul;
    FMulIs(D, 121666);
    hide Mod;
    SameResidue(D * 121666, 0 - 121665, 0x1_3083);
    ModIs(D + D, 1, D2);
  }

  // ---------- the curve equation ----------

  /** The product term. */
  lemma CrossIs(p: Point, q: Point)
    ensures Cross(p, q) == Mod(D * ((p.x * q.x) * (p.y * q.y)))
  {
    hide Mod;
    hide FMul;
    FMulIs(p.x, q.x);
    FMulIs(p.y, q.y);
    ResidueOfProduct(p.x * q.x, p.y * q.y);
    var t := (p.x * q.x) * (p.y * q.y);
    ResidueOfProduct(D, t);
    ModIs(D, 0, D);
  }

  lemma EquationIs(p: Point)
    ensures EdwardsLaw.Equation(p)
            <==> Mod(p.y * p.y - p.x * p.x) == Mod(1 + D * ((p.x * p.x) * (p.y * p.y)))
  {
    hide Mod;
    hide FMul;
    hide Cross;
    FMulIs(p.x, p.x);
    FMulIs(p.y, p.y);
    CrossIs(p, p);
    ResidueOfSum(p.y * p.y, p.x * p.x);
    ResidueOfSum(1, D * ((p.x * p.x) * (p.y * p.y)));
    ModIs(1, 0, 1);
  }

  /** A point is on the curve exactly when its coordinates are residues and y^2 - x^2 = 1 + d x^2 y^2 modulo p. */
  lemma OnCurveIs(p: Point)
    ensures OnCurve(p)
            <==> 0 <= p.x < P && 0 <= p.y < P
                 && Mod(p.y * p.y - p.x * p.x) == Mod(1 + D * ((p.x * p.x) * (p.y * p.y)))
  {
    hide Mod;
    hide EdwardsLaw.Equation;
    EquationIs(p);
    OnCurveMeans(p);
    hide OnCurve;
  }

  lemma OnCurveMeans(p: Point)
    ensures OnCurve(p) <==> 0 <= p.x < P && 0 <= p.y < P && EdwardsLaw.Equation(p)
  {
    hide EdwardsLaw.Equation;
  }

  /**
   The sum of two points meets x3 (1 + d x1 x2 y1 y2) = x1 y2 + x2 y1 and y3 (1 - d x1 x2 y1 y2) = y1 y2 + x1 x2
   modulo p, where neither factor on the left is 0.
   */
  lemma SumIs(p: CurvePoint, q: CurvePoint)
    requires CurveLaws()
    ensures var r, t := EAdd(p, q), D * ((p.x * q.x) * (p.y * q.y));
      && Mod(1 + t) != 0 && Mod(r.x * (1 + t)) == Mod(p.x * q.y + q.x * p.y)
      && Mod(1 - t) != 0 && Mod(r.y * (1 - t)) == Mod(p.y * q.y + p.x * q.x)
  {
    hide CurveLaws;
    hide OnCurve;
    hide EAdd;
    hide Mod;
    hide FMul;
    hide Cross;
    var r, t := EAdd(p, q), D * ((p.x * q.x) * (p.y * q.y));
    SumEquations(p, q);
    CrossIs(p, q);
    ModIs(1, 0, 1);
    ResidueOfSum(1, t);
    Numerator(p.x, q.y, q.x, p.y);
    Numerator(p.y, q.y, p.x, q.x);
    FactorIs(r.x, 1 + t);
    FactorIs(r.y, 1 - t);
  }

  lemma Numerator(a: int, b: int, c: int, d: int)
    ensures FAdd(FMul(a, b), FMul(c, d)) == Mod(a * b + c * d)
  {
    hide Mod;
    hide FMul;
    FMulIs(a, b);
    FMulIs(c, d);
    ResidueOfSum(a * b, c * d);
  }

  lemma FactorIs(s: int, f: int)
    ensures FMul(s, Mod(f)) == Mod(s * f)
  {
    hide Mod;
    hide Repeat;
    ResidueOfProduct(s, f);
    FMulIs(s, Mod(f));
    FMulIs(Mod(s), Mod(f));
    var i := Split(s);
    ShiftedFactor(Mod(f), Mod(s), i);
    SameResidue(s * Mod(f), Mod(s) * Mod(f), Mod(f) * i);
  }

  // ---------- the base point ----------

  /** The base point of the standard. */
  function BasePoint(): Point {
    Point(0x2169_36d3_cd6e_53fe_c0a4_e231_fdd6_dc5c_692c_c760_9525_a7b2_c956_2d60_8f25_d51a,
          0x6666_6666_6666_6666_6666_6666_6666_6666_6666_6666_6666_6666_6666_6666_6666_6658)
  }

  lemma ProductIs(x: int, y: int, k: int, r: int)
    requires x * y == r + TimesP(k) && 0 <= r < P
    ensures FMul(x, y) == r
  {
    hide Mod;
    hide FMul;
    FMulIs(x, y);
    ModIs(x * y, k, r);
  }

  const BASE_X2 := 0x39e5_a76b_6f33_fadb_c92a_232f_db1c_32f2_ebe3_9c55_5ccb_6a7d_690b_8a0f_82e8_1c67

  lemma BaseXSquare()
    ensures FMul(BasePoint().x, BasePoint().x) == BASE_X2
  {
    hide FMul;
    ProductIs(BasePoint().x, BasePoint().x,
        0x8b8_96c1_40e6_001e_d198_b5b7_b564_c5e7_c4ce_a765_6ac9_2ed1_492b_a585_5328_6991, BASE_X2);
  }

  const BASE_Y2 := 0x51eb_851e_b851_eb85_1eb8_51eb_851e_b851_eb85_1eb8_51eb_851e_b851_eb85_1eb8_51e0

  lemma BaseYSquare()
    ensures FMul(BasePoint().y, BasePoint().y) == BASE_Y2
  {
    hide FMul;
    ProductIs(BasePoint().y, BasePoint().y,
        0x51eb_851e_b851_eb85_1eb8_51eb_851e_b851_eb85_1eb8_51eb_851e_b851_eb85_1eb8_51e0, BASE_Y2);
  }

  const BASE_X2Y2 := 0x43c6_2db5_65e3_d3bf_dce7_c499_81fd_913f_4f49_fda7_45a0_e7fe_57b5_7714_2ad1_fdae

  lemma BaseProduct()
    ensures FMul(BASE_X2, BASE_Y2) == BASE_X2Y2
  {
    hide FMul;
    ProductIs(BASE_X2, BASE_Y2, 0x250d_dbc9_e0c5_1b6d_f162_a5e1_3012_0c20_96f8_1222_26e8_9612_d296_bec2_3f4c_defa,
        BASE_X2Y2);
  }

  const BASE_CROSS := 0x1805_ddb3_491d_f0a9_558e_2ebb_aa02_855e_ffa1_8262_f520_1aa1_4f46_6175_9bd0_3578

  lemma BaseCross()
    ensures FMul(D, BASE_X2Y2) == BASE_CROSS
  {
    hide FMul;
    ProductIs(D, BASE_X2Y2, 0x2b6c_c59a_9994_4230_931f_709d_d615_4114_df37_73c1_4313_160c_6e00_01c2_40b8_a35a,
        BASE_CROSS);
  }

  /** It is on the curve, y is 4/5, and x is even. */
  lemma BaseOnCurve()
    ensures OnCurve(BasePoint()) && FMul(5, BasePoint().y) == 4 && BasePoint().x % 2 == 0
  {
    hide FMul;
    hide OnCurve;
    BaseXSquare();
    BaseYSquare();
    BaseProduct();
    BaseCross();
    ProductIs(5, BasePoint().y, 4, 4);
    assert EdwardsLaw.Equation(BasePoint());
    OnCurveMeans(BasePoint());
  }

  /** Its encoding: 58 and thirty-one times 66. */
  function BaseBytes(): (b: seq<u8>)
    ensures |b| == 32
  {
    [0x58] + Repeated(31)
  }

  function Repeated(n: nat): (b: seq<u8>)
    ensures |b| == n
  {
    if n == 0 then [] else [0x66] + Repeated(n - 1)
  }

  lemma {:induction false} RepeatedValue(n: nat)
    ensures 5 * LE(Repeated(n)) == 2 * (Pow(0x100, n) - 1)
  {
    if n > 0 {
      RepeatedValue(n - 1);
      assert Repeated(n)[1..] == Repeated(n - 1);
    }
  }

  lemma BaseEncoded()
    ensures Encodes(BaseBytes(), BasePoint())
  {
    RepeatedValue(31);
    Pow256Of31();
    assert BaseBytes()[1..] == Repeated(31);
    assert LE(BaseBytes()) == 0x58 + 0x100 * LE(Repeated(31));
    hide LE;
    hide Pow;
  }

  /** Those bytes decode, to the negated base point. */
  lemma BaseDecodes()
    ensures Decodable(BaseBytes()) && DecodesTo(BaseBytes(), Point(FSub(0, BasePoint().x), BasePoint().y))
  {
    BaseOnCurve();
    BaseEncoded();
    hide OnCurve;
    hide Encodes;
    hide BaseBytes;
    hide BasePoint;
    var b: CurvePoint := BasePoint();
    NegatedDecodes(BaseBytes(), b);
    DecodableIs(BaseBytes(), ENeg(b));
  }

  lemma DecodableIs(b: seq<u8>, q: Point)
    requires |b| == 32 && DecodesTo(b, q)
    ensures Decodable(b)
  {
    hide OnCurve;
    hide YOf;
    assert q == Point(q.x, YOf(b));
  }

  // ---------- the tables ----------

  const BASE_XY := 0x6787_5f0f_d78b_7665_66ea_4e8e_64ab_e37d_20f0_9f80_7751_52f5_6dde_8ab3_a5b7_dda3

  lemma BaseXY()
    ensures FMul(BasePoint().x, BasePoint().y) == BASE_XY
  {
    hide FMul;
    ProductIs(BasePoint().x, BasePoint().y,
        0x1aba_9243_0abe_a998_9a1d_81c1_97df_16b0_5423_d2b3_aa84_8628_a111_bde6_d8eb_10e1, BASE_XY);
  }

  /** The limbs of ge25519_basepoint are those of the base point, with T = xy. */
  lemma BaseLimbs()
    ensures FV([0x00062d608f25d51a, 0x000412a4b4f6592a, 0x00075b7171a4b31d, 0x0001ff60527118fe, 0x000216936d3cd6e5])
            == BasePoint().x
    ensures FV([0x0006666666666658, 0x0004cccccccccccc, 0x0001999999999999, 0x0003333333333333, 0x0006666666666666])
            == BasePoint().y
    ensures FV([0x00068ab3a5b7dda3, 0x00000eea2a5eadbb, 0x0002af8df483c27e, 0x000332b375274732, 0x00067875f0fd78b7])
            == FMul(BasePoint().x, BasePoint().y)
  {
    hide FMul;
    BaseXY();
  }

  lemma BaseSums()
    ensures FSub(BasePoint().y, BasePoint().x)
        == 0x44fd_2f92_98f8_1267_a5c1_8434_688f_8a09_fd39_9f05_d140_beb3_9d10_3905_d740_913e
    ensures FAdd(BasePoint().y, BasePoint().x)
        == 0x7cf_9d3a_33d4_ba65_270b_4898_643d_42c2_cf93_2dc6_fb8c_0e19_2fbc_93c6_f58c_3b85
  {
    hide Mod;
    ModIs(BasePoint().y - BasePoint().x, 0,
        0x44fd_2f92_98f8_1267_a5c1_8434_688f_8a09_fd39_9f05_d140_beb3_9d10_3905_d740_913e);
    ModIs(BasePoint().y + BasePoint().x, 1,
        0x7cf_9d3a_33d4_ba65_270b_4898_643d_42c2_cf93_2dc6_fb8c_0e19_2fbc_93c6_f58c_3b85);
  }

  /** The first entry of ge25519_niels_sliding_multiples holds y - x, y + x and 2dxy of it. */
  lemma FirstSlidingEntry()
    ensures IsNiels(NielsRes(FV([0x00003905d740913e, 0x0000ba2817d673a2, 0x00023e2827f4e67c, 0x000133d2e0c21a34,
        0x00044fd2f9298f81]),
                             FV([0x000493c6f58c3b85, 0x0000df7181c325f7, 0x0000f50b0b3e4cb7, 0x0005329385a44c32,
                                 0x00007cf9d3a33d4b]),
                             FV([0x00011205877aaa68, 0x000479955893d579, 0x00050d66309b67a0, 0x0002d42d0dbee5ee,
                                 0x0006f117b689f0c6])), BasePoint())
  {
    hide FMul;
    BaseSums();
    BaseXY();
    CurveConstants();
    ProductIs(D2, BASE_XY, 0x1d23_9d4a_9f75_b0be_a8a9_ca56_3568_5853_c1a7_c6c8_d16b_948c_8473_a6df_6558_88ef,
        0x6f11_7b68_9f0c_65a8_5a1b_7dcb_dd43_598c_26d9_e823_ccaa_c49e_abc9_1205_877a_aa68);
  }

  function Spelled(b: seq<u8>): int
    requires |b| == 8
  {
    b[0] as int + 0x100 * (b[1] as int) + 0x1_0000 * (b[2] as int) + 0x100_0000 * (b[3] as int)
        + 0x1_0000_0000 * (b[4] as int)
    + 0x100_0000_0000 * (b[5] as int) + 0x1_0000_0000_0000 * (b[6] as int) + 0x100_0000_0000_0000 * (b[7] as int)
  }

  lemma FourWordsOf(a: seq<u8>, b: seq<u8>, c: seq<u8>, d: seq<u8>)
    requires |a| == 8 && |b| == 8 && |c| == 8 && |d| == 8
    ensures LE(a + b + c + d)
        == Spelled(a) + 0x1_0000_0000_0000_0000 * Spelled(b)
        + 0x1_0000_0000_0000_0000_0000_0000_0000_0000 * Spelled(c)
        + 0x1_0000_0000_0000_0000_0000_0000_0000_0000_0000_0000_0000_0000 * Spelled(d)
  {
    EightBytes(a);
    EightBytes(b);
    EightBytes(c);
    EightBytes(d);
    hide Eval;
    JoinWords(a, b, c, d);
  }

  function FirstYMinusX(): (b: seq<u8>)
    ensures |b| == 32
  {
    [0x3e, 0x91, 0x40, 0xd7, 0x05, 0x39, 0x10, 0x9d]
    + [0xb3, 0xbe, 0x40, 0xd1, 0x05, 0x9f, 0x39, 0xfd]
    + [0x09, 0x8a, 0x8f, 0x68, 0x34, 0x84, 0xc1, 0xa5]
    + [0x67, 0x12, 0xf8, 0x98, 0x92, 0x2f, 0xfd, 0x44]
  }

  lemma FirstYMinusXValue()
    ensures LE(FirstYMinusX()) == 0x44fd_2f92_98f8_1267_a5c1_8434_688f_8a09_fd39_9f05_d140_beb3_9d10_3905_d740_913e
  {
    hide LE;
    FourWordsOf([0x3e, 0x91, 0x40, 0xd7, 0x05, 0x39, 0x10, 0x9d],
                [0xb3, 0xbe, 0x40, 0xd1, 0x05, 0x9f, 0x39, 0xfd],
                [0x09, 0x8a, 0x8f, 0x68, 0x34, 0x84, 0xc1, 0xa5],
                [0x67, 0x12, 0xf8, 0x98, 0x92, 0x2f, 0xfd, 0x44]);
  }

  function FirstYPlusX(): (b: seq<u8>)
    ensures |b| == 32
  {
    [0x85, 0x3b, 0x8c, 0xf5, 0xc6, 0x93, 0xbc, 0x2f]
    + [0x19, 0x0e, 0x8c, 0xfb, 0xc6, 0x2d, 0x93, 0xcf]
    + [0xc2, 0x42, 0x3d, 0x64, 0x98, 0x48, 0x0b, 0x27]
    + [0x65, 0xba, 0xd4, 0x33, 0x3a, 0x9d, 0xcf, 0x07]
  }

  lemma FirstYPlusXValue()
    ensures LE(FirstYPlusX()) == 0x7cf_9d3a_33d4_ba65_270b_4898_643d_42c2_cf93_2dc6_fb8c_0e19_2fbc_93c6_f58c_3b85
  {
    hide LE;
    FourWordsOf([0x85, 0x3b, 0x8c, 0xf5, 0xc6, 0x93, 0xbc, 0x2f],
                [0x19, 0x0e, 0x8c, 0xfb, 0xc6, 0x2d, 0x93, 0xcf],
                [0xc2, 0x42, 0x3d, 0x64, 0x98, 0x48, 0x0b, 0x27],
                [0x65, 0xba, 0xd4, 0x33, 0x3a, 0x9d, 0xcf, 0x07]);
  }

  function FirstTwoXY(): (b: seq<u8>)
    ensures |b| == 32
  {
    [0x59, 0xbb, 0x6f, 0x4b, 0x67, 0x15, 0xbd, 0xdb]
    + [0xea, 0xa5, 0xa2, 0xee, 0x00, 0x3f, 0xe1, 0x41]
    + [0xfa, 0xc6, 0x57, 0xc9, 0x1c, 0x9d, 0xd4, 0xcd]
    + [0xca, 0xec, 0x16, 0xaf, 0x1f, 0xbe, 0x0e, 0x4f]
  }

  lemma FirstTwoXYValue()
    ensures LE(FirstTwoXY()) == 0x4f0e_be1f_af16_ecca_cdd4_9d1c_c957_c6fa_41e1_3f00_eea2_a5ea_dbbd_1567_4b6f_bb59
  {
    hide LE;
    FourWordsOf([0x59, 0xbb, 0x6f, 0x4b, 0x67, 0x15, 0xbd, 0xdb],
                [0xea, 0xa5, 0xa2, 0xee, 0x00, 0x3f, 0xe1, 0x41],
                [0xfa, 0xc6, 0x57, 0xc9, 0x1c, 0x9d, 0xd4, 0xcd],
                [0xca, 0xec, 0x16, 0xaf, 0x1f, 0xbe, 0x0e, 0x4f]);
  }

  /** The first row of ge25519_niels_base_multiples holds y - x, y + x and 2xy of the base point. */
  lemma FirstBaseRow()
    ensures IsScaledNiels(RowRes(FirstYMinusX() + FirstYPlusX() + FirstTwoXY()), BasePoint(), RowScale(0))
  {
    hide FMul;
    hide LE;
    hide Mod;
    var a, b, c := FirstYMinusX(), FirstYPlusX(), FirstTwoXY();
    FirstYMinusXValue();
    FirstYPlusXValue();
    FirstTwoXYValue();
    assert (a + b + c)[..32] == a && (a + b + c)[32..64] == b && (a + b + c)[64..] == c;
    hide FirstYMinusX;
    hide FirstYPlusX;
    hide FirstTwoXY;
    BaseSums();
    BaseXY();
    ModIs(0x44fd_2f92_98f8_1267_a5c1_8434_688f_8a09_fd39_9f05_d140_beb3_9d10_3905_d740_913e, 0,
        0x44fd_2f92_98f8_1267_a5c1_8434_688f_8a09_fd39_9f05_d140_beb3_9d10_3905_d740_913e);
    ModIs(0x7cf_9d3a_33d4_ba65_270b_4898_643d_42c2_cf93_2dc6_fb8c_0e19_2fbc_93c6_f58c_3b85, 0,
        0x7cf_9d3a_33d4_ba65_270b_4898_643d_42c2_cf93_2dc6_fb8c_0e19_2fbc_93c6_f58c_3b85);
    ModIs(0x4f0e_be1f_af16_ecca_cdd4_9d1c_c957_c6fa_41e1_3f00_eea2_a5ea_dbbd_1567_4b6f_bb59, 0,
        0x4f0e_be1f_af16_ecca_cdd4_9d1c_c957_c6fa_41e1_3f00_eea2_a5ea_dbbd_1567_4b6f_bb59);
    ModIs(1 + 1, 0, 2);
    ProductIs(2, BASE_XY, 1, 0x4f0e_be1f_af16_ecca_cdd4_9d1c_c957_c6fa_41e1_3f00_eea2_a5ea_dbbd_1567_4b6f_bb59);
  }
}
