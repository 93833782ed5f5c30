/**
 The digest of "abc" in the model, computed sixteen rounds at a time, is the one published with the standard.
 */
module Sha512Example {
  import opened Numbers
  import opened Bytes
  import opened Sha512

  // ---------- sixteen rounds at a time ----------

  /** The last sixteen words, one word later. */
  function Slide(w: seq<bv64>): (r: seq<bv64>)
    requires |w| == 16
    ensures |r| == 16
  {
    [w[1], w[2], w[3], w[4], w[5], w[6], w[7], w[8], w[9], w[10], w[11], w[12], w[13], w[14], w[15],
     Plus(Plus(Plus(Small1(w[14]), w[9]), Small0(w[1])), w[0])]
  }

  function Slide4(w: seq<bv64>): (r: seq<bv64>)
    requires |w| == 16
    ensures |r| == 16
  {
    Slide(Slide(Slide(Slide(w))))
  }

  function Slide16(w: seq<bv64>): (r: seq<bv64>)
    requires |w| == 16
    ensures |r| == 16
  {
    Slide4(Slide4(Slide4(Slide4(w))))
  }

  function Round4(s: seq<bv64>, k: seq<bv64>, w: seq<bv64>, n: nat): (r: seq<bv64>)
    requires |s| == 8 && n + 4 <= |k| && n + 4 <= |w|
    ensures |r| == 8
  {
    Round(Round(Round(Round(s, k[n], w[n]), k[n + 1], w[n + 1]), k[n + 2], w[n + 2]), k[n + 3], w[n + 3])
  }

  function Round16(s: seq<bv64>, k: seq<bv64>, w: seq<bv64>): (r: seq<bv64>)
    requires |s| == 8 && |k| == 16 && |w| == 16
    ensures |r| == 8
  {
    Round4(Round4(Round4(Round4(s, k, w, 0), k, w, 4), k, w, 8), k, w, 12)
  }

  lemma WindowStep(block: seq<u8>, n: nat)
    requires |block| == 128 && 16 <= n < 80
    ensures Schedule(block, n + 1)[n - 15..] == Slide(Schedule(block, n)[n - 16..])
  {
    hide Schedule;
    hide ScheduleWord;
    hide Slide;
    var w := Schedule(block, n);
    ScheduleStep(block, n);
    var u := w[n - 16..];
    NextWord(block, w);
    assert (w + [ScheduleWord(block, w)])[n - 15..] == u[1..] + [ScheduleWord(block, w)];
    SlideIs(u);
  }

  lemma NextWord(block: seq<u8>, w: seq<bv64>)
    requires |block| == 128 && 16 <= |w| < 80
    ensures var u := w[|w| - 16..]; ScheduleWord(block, w) == Plus(Plus(Plus(Small1(u[14]), u[9]), Small0(u[1])), u[0])
  {
    hide Plus;
    hide Small0;
    hide Small1;
  }

  lemma SlideIs(u: seq<bv64>)
    requires |u| == 16
    ensures Slide(u) == u[1..] + [Plus(Plus(Plus(Small1(u[14]), u[9]), Small0(u[1])), u[0])]
  {
    hide Plus;
    hide Small0;
    hide Small1;
  }

  lemma Window4(block: seq<u8>, n: nat)
    requires |block| == 128 && 16 <= n <= 76
    ensures Schedule(block, n + 4)[n - 12..] == Slide4(Schedule(block, n)[n - 16..])
  {
    hide Schedule;
    hide Slide;
    WindowStep(block, n);
    WindowStep(block, n + 1);
    WindowStep(block, n + 2);
    WindowStep(block, n + 3);
  }

  lemma Window16(block: seq<u8>, n: nat)
    requires |block| == 128 && 16 <= n <= 64
    ensures Schedule(block, n + 16)[n..] == Slide16(Schedule(block, n)[n - 16..])
  {
    hide Schedule;
    hide Slide4;
    Window4(block, n);
    Window4(block, n + 4);
    Window4(block, n + 8);
    Window4(block, n + 12);
  }

  lemma {:induction false} SchedulePrefix(block: seq<u8>, n: nat, m: nat)
    requires |block| == 128 && n <= m <= 80
    ensures Schedule(block, m)[..n] == Schedule(block, n)
  {
    if n < m {
      SchedulePrefix(block, n, m - 1);
      ScheduleStep(block, m - 1);
    }
    hide Schedule;
  }

  lemma Rounds4(s: seq<bv64>, w: seq<bv64>, n: nat, i: nat)
    requires |s| == 8 && n + 16 <= |w| <= 80 && i <= 12
    ensures Rounds(s, w, n + i + 4) == Round4(Rounds(s, w, n + i), Constants()[n..n + 16], w[n..n + 16], i)
  {
    hide Constants;
    hide Round;
    RoundsStep(s, w, n + i);
    RoundsStep(s, w, n + i + 1);
    RoundsStep(s, w, n + i + 2);
    RoundsStep(s, w, n + i + 3);
    hide Rounds;
  }

  lemma RoundsStep(s: seq<bv64>, w: seq<bv64>, n: nat)
    requires |s| == 8 && n < |w| <= 80
    ensures Rounds(s, w, n + 1) == Round(Rounds(s, w, n), Constants()[n], w[n])
  {
    hide Constants;
    hide Round;
  }

  lemma NoRounds(s: seq<bv64>, w: seq<bv64>)
    requires |s| == 8
    ensures Rounds(s, w, 0) == s
  {
  }

  lemma Rounds16(s: seq<bv64>, w: seq<bv64>, n: nat)
    requires |s| == 8 && n + 16 <= |w| <= 80
    ensures Rounds(s, w, n + 16) == Round16(Rounds(s, w, n), Constants()[n..n + 16], w[n..n + 16])
  {
    hide Constants;
    hide Rounds;
    hide Round4;
    Rounds4(s, w, n, 0);
    Rounds4(s, w, n, 4);
    Rounds4(s, w, n, 8);
    Rounds4(s, w, n, 12);
  }

  lemma ConstantSlices()
    ensures Constants()[0..16] == Constants0() && Constants()[16..32] == Constants1()
    ensures Constants()[32..48] == Constants2() && Constants()[48..64] == Constants3()
    ensures Constants()[64..80] == Constants4()
  {
    hide Constants0;
    hide Constants1;
    hide Constants2;
    hide Constants3;
    hide Constants4;
  }

  // ---------- the digest of "abc" ----------

  function AbcWords0(): (w: seq<bv64>)
    ensures |w| == 16
  {
    [ 0x6162_6380_0000_0000, 0x0000_0000_0000_0000, 0x0000_0000_0000_0000, 0x0000_0000_0000_0000,
      0x0000_0000_0000_0000, 0x0000_0000_0000_0000, 0x0000_0000_0000_0000, 0x0000_0000_0000_0000,
      0x0000_0000_0000_0000, 0x0000_0000_0000_0000, 0x0000_0000_0000_0000, 0x0000_0000_0000_0000,
      0x0000_0000_0000_0000, 0x0000_0000_0000_0000, 0x0000_0000_0000_0000, 0x0000_0000_0000_0018 ]
  }

  function AbcWords1(): (w: seq<bv64>)
    ensures |w| == 16
  {
    [ 0x6162_6380_0000_0000, 0x0003_0000_0000_00c0, 0x0a96_99a2_4c70_0003, 0x0000_0c00_6000_0603,
      0x549e_f626_3985_8996, 0x00c0_0033_0000_3c00, 0x1497_007a_8a0e_9dbc, 0x62e5_6500_cc07_80f0,
      0x7760_dd47_5a53_8797, 0xf155_4b71_1c1c_0003, 0xca29_93a4_345d_9ff2, 0x5e0e_66b5_c783_dd32,
      0xe25a_625d_0049_4b62, 0x9f44_486f_b1e4_fbd2, 0xb31b_8c2b_0608_5f2f, 0x0e98_7660_9341_42f6 ]
  }

  function AbcWords2(): (w: seq<bv64>)
    ensures |w| == 16
  {
    [ 0xa4af_2cfd_09fb_b924, 0xad28_9e2e_0bd5_3186, 0x3c74_563a_a2f9_673e, 0x6ccd_cd14_cc14_b53f,
      0xc3f9_25b3_37f2_2bde, 0x5bcc_77a7_5ad9_5b54, 0x3ec2_257a_dca0_9a52, 0x2824_6960_001f_c5eb,
      0x04e3_3a75_ce2b_e88a, 0x7d53_14b3_c359_e0e7, 0xaef7_a285_ff25_1266, 0x0b84_7258_1dee_a04f,
      0xb174_e26e_ddc7_b033, 0x5d63_bae5_8ddd_88de, 0x4c04_4007_b744_ccbb, 0xe6a9_aa4d_74dc_7d43 ]
  }

  function AbcWords3(): (w: seq<bv64>)
    ensures |w| == 16
  {
    [ 0xebea_f123_7248_019c, 0x361e_80b2_d00f_3193, 0x2e98_3912_5df3_b175, 0x3319_6292_93ad_5363,
      0x9cbc_5d89_ac1b_89d5, 0x275e_23ff_eeca_50b7, 0x3b80_d680_bf69_ef58, 0x0d06_9693_3945_a125,
      0x7533_eabc_b786_ff00, 0xb898_26ce_e6fb_f0e5, 0x249b_4fbc_ad62_3e9f, 0x4aea_9df2_b02d_6f1e,
      0x2cc5_7475_a55e_8d8f, 0xb257_4ae9_38d8_be89, 0xc1b3_5a57_b16d_6aea, 0xcc49_18b5_9492_06bb ]
  }

  function AbcWords4(): (w: seq<bv64>)
    ensures |w| == 16
  {
    [ 0x5099_c3ad_d79f_90ec, 0x5ea8_1d78_e766_0bf1, 0xebee_6267_405a_c2a9, 0xb01f_2192_6108_a4ab,
      0x7864_33dd_2fe6_5556, 0xc54a_6eaa_24a0_552c, 0xb3c8_f153_0bdb_aa9e, 0xbb8a_bfe5_6f46_9338,
      0xf63d_4265_cc1c_5a78, 0xbe83_55ea_7312_9afb, 0x49e2_db8e_bdcf_beb5, 0x8226_9d4a_883a_3d99,
      0xfdf5_3df3_011f_362b, 0x464a_f567_1d71_c12e, 0xe449_b681_98ec_611c, 0x92ae_eed1_a7bc_f7d2 ]
  }

  lemma AbcWindow1()
    ensures Slide16(AbcWords0()) == AbcWords1()
  {
  }

  lemma AbcWindow2()
    ensures Slide16(AbcWords1()) == AbcWords2()
  {
  }

  lemma AbcWindow3()
    ensures Slide16(AbcWords2()) == AbcWords3()
  {
  }

  lemma AbcWindow4()
    ensures Slide16(AbcWords3()) == AbcWords4()
  {
  }

  function AbcState1(): (s: seq<bv64>)
    ensures |s| == 8
  {
    [ 0x0ae0_7c86_b118_1c75, 0xfa96_7eed_85a0_8028, 0x4424_9631_255d_2ca0, 0x5e41_2143_8818_6c14,
      0xa77b_7c03_5dd4_c161, 0x874b_fe5f_6aae_9f2f, 0x860a_cf9e_ffba_6f61, 0xcdf3_bff2_883f_c9d9 ]
  }

  function AbcState2(): (s: seq<bv64>)
    ensures |s| == 8
  {
    [ 0xff4d_3f1f_0d46_a736, 0x4c4f_bbb7_5f18_73a6, 0x74bf_40f8_6909_4c63, 0xe623_4909_0f47_d30a,
      0x3cd3_88e1_19e8_162e, 0x73e0_25d9_1b9e_fea3, 0xf0ae_c2fe_1437_f085, 0x0fcd_f997_10f2_1584 ]
  }

  function AbcState3(): (s: seq<bv64>)
    ensures |s| == 8
  {
    [ 0x6b69_fc1b_b482_feac, 0xf61e_6726_94de_2d67, 0x021f_badb_abab_5ac6, 0xc47c_9d5c_7ea8_a234,
      0x3526_4334_c03a_c8ad, 0xc6bc_3574_0d8d_aa9a, 0xe95c_2a57_572d_64d9, 0x858d_832a_e0e8_911c ]
  }

  function AbcState4(): (s: seq<bv64>)
    ensures |s| == 8
  {
    [ 0xab44_e862_7647_8d85, 0xa81d_edbb_9f19_e643, 0xcfcd_928c_5424_e2b6, 0x3857_dfd2_fc37_d3ba,
      0xcd88_1ee5_9ca6_bc53, 0x8405_8865_d60a_05fa, 0x09ae_e5bd_a164_4de5, 0xa6af_4e9c_9f80_7e51 ]
  }

  function AbcState5(): (s: seq<bv64>)
    ensures |s| == 8
  {
    [ 0x73a5_4f39_9fa4_b1b2, 0x10d9_c4c4_2955_99f6, 0xd678_06db_8b14_8677, 0x654e_f9ab_ec38_9ca9,
      0xd084_46aa_7969_3ed7, 0x9bb4_d397_78c0_7f9e, 0x25c9_6a77_68fb_2aa3, 0xceb9_fc36_91ce_8326 ]
  }

  lemma AbcRounds1()
    ensures Round16(InitialHash(), Constants0(), AbcWords0()) == AbcState1()
  {
  }

  lemma AbcRounds2()
    ensures Round16(AbcState1(), Constants1(), AbcWords1()) == AbcState2()
  {
  }

  lemma AbcRounds3()
    ensures Round16(AbcState2(), Constants2(), AbcWords2()) == AbcState3()
  {
  }

  lemma AbcRounds4()
    ensures Round16(AbcState3(), Constants3(), AbcWords3()) == AbcState4()
  {
  }

  lemma AbcRounds5()
    ensures Round16(AbcState4(), Constants4(), AbcWords4()) == AbcState5()
  {
  }

  /** "abc" padded. */
  function AbcBlock(): (b: seq<u8>)
    ensures |b| == 128
  {
    [0x61, 0x62, 0x63, 0x80] + Zeros(123) + [0x18]
  }

  lemma AbcPadded()
    ensures [0x61, 0x62, 0x63] + Padding([0x61, 0x62, 0x63]) == AbcBlock()
  {
    hide BigEndian;
    var m: seq<u8>, one: seq<u8> := [0x61, 0x62, 0x63], [0x80];
    PaddingIs(m);
    hide Padding;
    AbcLength();
    assert Padding(m) == one + Zeros(108) + (Zeros(15) + [0x18]);
    assert Zeros(108) + Zeros(15) == Zeros(123);
    assert m + one == [0x61, 0x62, 0x63, 0x80];
    hide *;
    assert m + (one + Zeros(108) + (Zeros(15) + [0x18])) == m + one + (Zeros(108) + Zeros(15)) + [0x18];
  }

  lemma AbcLength()
    ensures BigEndian(24, 16) == Zeros(15) + [0x18]
  {
    BigEndianStep(24, 16);
    ZeroBytes(15);
    hide BigEndian;
  }

  lemma {:induction false} ZeroBytes(n: nat)
    ensures BigEndian(0, n) == Zeros(n)
  {
    if n > 0 {
      ZeroBytes(n - 1);
    }
  }

  lemma {:induction false} ZeroWord(b: seq<u8>)
    requires forall i :: 0 <= i < |b| ==> b[i] == 0
    ensures BE(b) == 0
  {
    if |b| > 0 {
      ZeroWord(b[..|b| - 1]);
    }
  }

  lemma AbcFirstBytes()
    ensures BE(AbcBlock()[8 * 0..8 * 0 + 8]) == 0x6162_6380_0000_0000
  {
    var b := AbcBlock()[0..8];
    EightBE(b);
    hide BE;
    assert b == [0x61, 0x62, 0x63, 0x80, 0, 0, 0, 0];
  }

  lemma FirstAsWord()
    ensures Word(0x6162_6380_0000_0000) == 0x6162_6380_0000_0000
  {
    assert 0x6162_6380_0000_0000 as bv64 == 0x6162_6380_0000_0000;
  }

  lemma AbcFirstWord()
    ensures BlockWord(AbcBlock(), 0) == 0x6162_6380_0000_0000
  {
    hide BE;
    hide Word;
    hide AbcBlock;
    AbcFirstBytes();
    FirstAsWord();
  }

  lemma AbcLastBytes()
    ensures BE(AbcBlock()[8 * 15..8 * 15 + 8]) == 0x18
  {
    var b := AbcBlock()[120..128];
    EightBE(b);
    hide BE;
    assert b == [0, 0, 0, 0, 0, 0, 0, 0x18];
  }

  lemma AbcLastWord()
    ensures BlockWord(AbcBlock(), 15) == 0x18
  {
    hide BE;
    hide AbcBlock;
    AbcLastBytes();
  }

  lemma AbcZeroWord(t: nat)
    requires 0 < t < 15
    ensures BlockWord(AbcBlock(), t) == 0
  {
    ZeroWord(AbcBlock()[8 * t..8 * t + 8]);
    hide BE;
  }

  lemma AbcFirstWords(t: nat)
    requires t < 16
    ensures BlockWord(AbcBlock(), t) == AbcWords0()[t]
  {
    hide BlockWord;
    hide AbcBlock;
    if t == 0 {
      AbcFirstWord();
    } else if t == 15 {
      AbcLastWord();
    } else {
      AbcZeroWord(t);
    }
  }

  lemma {:induction false} FirstWords(block: seq<u8>, n: nat)
    requires |block| == 128 && n <= 16
    ensures forall t :: 0 <= t < n ==> Schedule(block, n)[t] == BlockWord(block, t)
  {
    hide BlockWord;
    if n > 0 {
      FirstWords(block, n - 1);
      ScheduleStep(block, n - 1);
      hide Schedule;
    }
  }

  lemma AbcSchedule(w: seq<bv64>)
    requires w == Schedule(AbcBlock(), 80)
    ensures w[0..16] == AbcWords0() && w[16..32] == AbcWords1() && w[32..48] == AbcWords2()
    ensures w[48..64] == AbcWords3() && w[64..80] == AbcWords4()
  {
    hide *;
    var b := AbcBlock();
    FirstWords(b, 16);
    forall t | 0 <= t < 16
      ensures Schedule(b, 16)[t] == AbcWords0()[t]
    {
      AbcFirstWords(t);
    }
    assert Schedule(b, 16) == AbcWords0();
    Window16(b, 16);
    AbcWindow1();
    Window16(b, 32);
    AbcWindow2();
    Window16(b, 48);
    AbcWindow3();
    Window16(b, 64);
    AbcWindow4();
    SchedulePrefix(b, 16, 80);
    SchedulePrefix(b, 32, 80);
    SchedulePrefix(b, 48, 80);
    SchedulePrefix(b, 64, 80);
    assert Schedule(b, 16)[16 - 16..] == Schedule(b, 16);
    assert w[..32][16..] == w[16..32] && w[..48][32..] == w[32..48] && w[..64][48..] == w[48..64];
  }

  lemma AbcRounds(w: seq<bv64>)
    requires w == Schedule(AbcBlock(), 80)
    ensures Rounds(InitialHash(), w, 80) == AbcState5()
  {
    hide *;
    var h := InitialHash();
    NoRounds(h, w);
    AbcSchedule(w);
    ConstantSlices();
    Rounds16(h, w, 0);
    AbcRounds1();
    Rounds16(h, w, 16);
    AbcRounds2();
    Rounds16(h, w, 32);
    AbcRounds3();
    Rounds16(h, w, 48);
    AbcRounds4();
    Rounds16(h, w, 64);
    AbcRounds5();
  }

  function AbcHash(): (h: seq<bv64>)
    ensures |h| == 8
  {
    [ 0xddaf_35a1_9361_7aba, 0xcc41_7349_ae20_4131, 0x12e6_fa4e_89a9_7ea2, 0x0a9e_eee6_4b55_d39a,
      0x2192_992a_274f_c1a8, 0x36ba_3c23_a3fe_ebbd, 0x454d_4423_643c_e80e, 0x2a9a_c94f_a54c_a49f ]
  }

  lemma AbcAdded()
    ensures AddWords(AbcState5(), InitialHash()) == AbcHash()
  {
  }

  lemma OneBlock(h: seq<bv64>, b: seq<u8>)
    requires |h| == 8 && |b| == 128
    ensures Fold(h, b, 1) == AddWords(Rounds(h, Schedule(b, 80), 80), h)
  {
    hide AddWords;
    hide Rounds;
    hide Schedule;
    assert Fold(h, b, 1) == Compress(Fold(h, b, 0), b[128 * 0..128 * 1]);
    assert b[128 * 0..128 * 1] == b;
  }

  lemma AbcFold()
    ensures Fold(InitialHash(), AbcBlock(), 1) == AbcHash()
  {
    hide *;
    OneBlock(InitialHash(), AbcBlock());
    AbcRounds(Schedule(AbcBlock(), 80));
    AbcAdded();
  }

  lemma {:induction false} DigestAppend(a: seq<bv64>, b: seq<bv64>)
    ensures DigestBytes(a + b) == DigestBytes(a) + DigestBytes(b)
    decreases |b|
  {
    hide *;
    if |b| == 0 {
      NoDigest();
      assert a + b == a && b == [];
    } else {
      var c := b[..|b| - 1];
      DigestAppend(a, c);
      DigestStep(b);
      DigestStep(a + b);
      assert (a + b)[..|a + b| - 1] == a + c;
    }
  }

  lemma TwoWords(a: bv64, b: bv64)
    ensures DigestBytes([a, b]) == BigEndian(Number(a), 8) + BigEndian(Number(b), 8)
  {
    hide *;
    DigestStep([a, b]);
    assert [a, b][..1] == [a];
    DigestStep([a]);
    assert [a][..0] == [];
    NoDigest();
  }

  lemma EightWords(a: bv64, b: bv64, c: bv64, d: bv64, e: bv64, f: bv64, g: bv64, h: bv64)
    ensures DigestBytes([a, b, c, d, e, f, g, h])
            == DigestBytes([a, b]) + DigestBytes([c, d]) + DigestBytes([e, f]) + DigestBytes([g, h])
  {
    hide *;
    DigestAppend([a, b], [c, d]);
    DigestAppend([a, b] + [c, d], [e, f]);
    DigestAppend([a, b] + [c, d] + [e, f], [g, h]);
    assert [a, b] + [c, d] + [e, f] + [g, h] == [a, b, c, d, e, f, g, h];
  }

  lemma NoDigest()
    ensures DigestBytes([]) == []
  {
  }

  lemma DigestStep(h: seq<bv64>)
    requires |h| > 0
    ensures DigestBytes(h) == DigestBytes(h[..|h| - 1]) + BigEndian(Number(h[|h| - 1]), 8)
  {
    hide BigEndian;
  }

  /** The digest of "abc" in the example published with the standard. */
  function PublishedDigest(): (d: seq<u8>) {
    [0xdd, 0xaf, 0x35, 0xa1, 0x93, 0x61, 0x7a, 0xba] + [0xcc, 0x41, 0x73, 0x49, 0xae, 0x20, 0x41, 0x31]
    + [0x12, 0xe6, 0xfa, 0x4e, 0x89, 0xa9, 0x7e, 0xa2] + [0x0a, 0x9e, 0xee, 0xe6, 0x4b, 0x55, 0xd3, 0x9a]
    + [0x21, 0x92, 0x99, 0x2a, 0x27, 0x4f, 0xc1, 0xa8] + [0x36, 0xba, 0x3c, 0x23, 0xa3, 0xfe, 0xeb, 0xbd]
    + [0x45, 0x4d, 0x44, 0x23, 0x64, 0x3c, 0xe8, 0x0e] + [0x2a, 0x9a, 0xc9, 0x4f, 0xa5, 0x4c, 0xa4, 0x9f]
  }

  lemma AbcNumber0()
    ensures Number(0xddaf_35a1_9361_7aba) == 0xddaf_35a1_9361_7aba
  {
    assert 0xddaf_35a1_9361_7aba as bv64 as nat == 0xddaf_35a1_9361_7aba;
  }

  lemma AbcNumber1()
    ensures Number(0xcc41_7349_ae20_4131) == 0xcc41_7349_ae20_4131
  {
    assert 0xcc41_7349_ae20_4131 as bv64 as nat == 0xcc41_7349_ae20_4131;
  }

  lemma AbcNumber2()
    ensures Number(0x12e6_fa4e_89a9_7ea2) == 0x12e6_fa4e_89a9_7ea2
  {
    assert 0x12e6_fa4e_89a9_7ea2 as bv64 as nat == 0x12e6_fa4e_89a9_7ea2;
  }

  lemma AbcNumber3()
    ensures Number(0x0a9e_eee6_4b55_d39a) == 0x0a9e_eee6_4b55_d39a
  {
    assert 0x0a9e_eee6_4b55_d39a as bv64 as nat == 0x0a9e_eee6_4b55_d39a;
  }

  lemma AbcNumber4()
    ensures Number(0x2192_992a_274f_c1a8) == 0x2192_992a_274f_c1a8
  {
    assert 0x2192_992a_274f_c1a8 as bv64 as nat == 0x2192_992a_274f_c1a8;
  }

  lemma AbcNumber5()
    ensures Number(0x36ba_3c23_a3fe_ebbd) == 0x36ba_3c23_a3fe_ebbd
  {
    assert 0x36ba_3c23_a3fe_ebbd as bv64 as nat == 0x36ba_3c23_a3fe_ebbd;
  }

  lemma AbcNumber6()
    ensures Number(0x454d_4423_643c_e80e) == 0x454d_4423_643c_e80e
  {
    assert 0x454d_4423_643c_e80e as bv64 as nat == 0x454d_4423_643c_e80e;
  }

  lemma AbcNumber7()
    ensures Number(0x2a9a_c94f_a54c_a49f) == 0x2a9a_c94f_a54c_a49f
  {
    assert 0x2a9a_c94f_a54c_a49f as bv64 as nat == 0x2a9a_c94f_a54c_a49f;
  }

  lemma AbcBytes0()
    ensures BigEndian(Number(0xddaf_35a1_9361_7aba), 8) == [0xdd, 0xaf, 0x35, 0xa1, 0x93, 0x61, 0x7a, 0xba]
  {
    hide BigEndian;
    hide Number;
    AbcNumber0();
    EightBE([0xdd, 0xaf, 0x35, 0xa1, 0x93, 0x61, 0x7a, 0xba]);
    hide BE;
    BytesOf([0xdd, 0xaf, 0x35, 0xa1, 0x93, 0x61, 0x7a, 0xba]);
  }

  lemma AbcBytes1()
    ensures BigEndian(Number(0xcc41_7349_ae20_4131), 8) == [0xcc, 0x41, 0x73, 0x49, 0xae, 0x20, 0x41, 0x31]
  {
    hide BigEndian;
    hide Number;
    AbcNumber1();
    EightBE([0xcc, 0x41, 0x73, 0x49, 0xae, 0x20, 0x41, 0x31]);
    hide BE;
    BytesOf([0xcc, 0x41, 0x73, 0x49, 0xae, 0x20, 0x41, 0x31]);
  }

  lemma AbcBytes2()
    ensures BigEndian(Number(0x12e6_fa4e_89a9_7ea2), 8) == [0x12, 0xe6, 0xfa, 0x4e, 0x89, 0xa9, 0x7e, 0xa2]
  {
    hide BigEndian;
    hide Number;
    AbcNumber2();
    EightBE([0x12, 0xe6, 0xfa, 0x4e, 0x89, 0xa9, 0x7e, 0xa2]);
    hide BE;
    BytesOf([0x12, 0xe6, 0xfa, 0x4e, 0x89, 0xa9, 0x7e, 0xa2]);
  }

  lemma AbcBytes3()
    ensures BigEndian(Number(0x0a9e_eee6_4b55_d39a), 8) == [0x0a, 0x9e, 0xee, 0xe6, 0x4b, 0x55, 0xd3, 0x9a]
  {
    hide BigEndian;
    hide Number;
    AbcNumber3();
    EightBE([0x0a, 0x9e, 0xee, 0xe6, 0x4b, 0x55, 0xd3, 0x9a]);
    hide BE;
    BytesOf([0x0a, 0x9e, 0xee, 0xe6, 0x4b, 0x55, 0xd3, 0x9a]);
  }

  lemma AbcBytes4()
    ensures BigEndian(Number(0x2192_992a_274f_c1a8), 8) == [0x21, 0x92, 0x99, 0x2a, 0x27, 0x4f, 0xc1, 0xa8]
  {
    hide BigEndian;
    hide Number;
    AbcNumber4();
    EightBE([0x21, 0x92, 0x99, 0x2a, 0x27, 0x4f, 0xc1, 0xa8]);
    hide BE;
    BytesOf([0x21, 0x92, 0x99, 0x2a, 0x27, 0x4f, 0xc1, 0xa8]);
  }

  lemma AbcBytes5()
    ensures BigEndian(Number(0x36ba_3c23_a3fe_ebbd), 8) == [0x36, 0xba, 0x3c, 0x23, 0xa3, 0xfe, 0xeb, 0xbd]
  {
    hide BigEndian;
    hide Number;
    AbcNumber5();
    EightBE([0x36, 0xba, 0x3c, 0x23, 0xa3, 0xfe, 0xeb, 0xbd]);
    hide BE;
    BytesOf([0x36, 0xba, 0x3c, 0x23, 0xa3, 0xfe, 0xeb, 0xbd]);
  }

  lemma AbcBytes6()
    ensures BigEndian(Number(0x454d_4423_643c_e80e), 8) == [0x45, 0x4d, 0x44, 0x23, 0x64, 0x3c, 0xe8, 0x0e]
  {
    hide BigEndian;
    hide Number;
    AbcNumber6();
    EightBE([0x45, 0x4d, 0x44, 0x23, 0x64, 0x3c, 0xe8, 0x0e]);
    hide BE;
    BytesOf([0x45, 0x4d, 0x44, 0x23, 0x64, 0x3c, 0xe8, 0x0e]);
  }

  lemma AbcBytes7()
    ensures BigEndian(Number(0x2a9a_c94f_a54c_a49f), 8) == [0x2a, 0x9a, 0xc9, 0x4f, 0xa5, 0x4c, 0xa4, 0x9f]
  {
    hide BigEndian;
    hide Number;
    AbcNumber7();
    EightBE([0x2a, 0x9a, 0xc9, 0x4f, 0xa5, 0x4c, 0xa4, 0x9f]);
    hide BE;
    BytesOf([0x2a, 0x9a, 0xc9, 0x4f, 0xa5, 0x4c, 0xa4, 0x9f]);
  }

  lemma AbcBytes()
    ensures DigestBytes(AbcHash()) == PublishedDigest()
  {
    hide BigEndian;
    hide DigestBytes;
    hide Number;
    EightWords(0xddaf_35a1_9361_7aba, 0xcc41_7349_ae20_4131, 0x12e6_fa4e_89a9_7ea2, 0x0a9e_eee6_4b55_d39a,
        0x2192_992a_274f_c1a8, 0x36ba_3c23_a3fe_ebbd, 0x454d_4423_643c_e80e, 0x2a9a_c94f_a54c_a49f);
    TwoWords(0xddaf_35a1_9361_7aba, 0xcc41_7349_ae20_4131);
    TwoWords(0x12e6_fa4e_89a9_7ea2, 0x0a9e_eee6_4b55_d39a);
    TwoWords(0x2192_992a_274f_c1a8, 0x36ba_3c23_a3fe_ebbd);
    TwoWords(0x454d_4423_643c_e80e, 0x2a9a_c94f_a54c_a49f);
    AbcBytes0();
    AbcBytes1();
    AbcBytes2();
    AbcBytes3();
    AbcBytes4();
    AbcBytes5();
    AbcBytes6();
    AbcBytes7();
  }

  /** The digest of "abc" is the published one. */
  lemma AbcDigest()
    ensures Digest([0x61, 0x62, 0x63]) == PublishedDigest()
  {
    var m: seq<u8> := [0x61, 0x62, 0x63];
    hide *;
    AbcPadded();
    AbcFold();
    DigestIs(m);
    assert |AbcBlock()| / 128 == 1;
    AbcBytes();
  }

  lemma DigestIs(m: seq<u8>)
    ensures var p := m + Padding(m); Digest(m) == DigestBytes(Fold(InitialHash(), p, |p| / 128))
  {
    hide Padding;
    hide DigestBytes;
    hide Fold;
    hide InitialHash;
  }
}
