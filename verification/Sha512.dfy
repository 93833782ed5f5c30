/**
 Streaming SHA-512 (ed25519-hash.h, reference branch) against FIPS 180-4: the compression function with the
 standard's Ch and Maj, the padding of its section 5.1.2, and a context whose updates may split the message anywhere.
 */
module Sha512 {
  import opened Numbers
  import opened Bytes

  // ---------- the functions of sections 3.2 and 4.1.3 ----------

  /** Addition modulo 2^64. */
  function Plus(a: bv64, b: bv64): bv64 {
    a + b
  }

  /** sha512_ROTR64. */
  function Rotr(x: bv64, k: bv7): bv64
    requires 0 < k < 64
  {
    (x >> k) | (x << (64 - k))
  }

  /** A shift to the right. */
  function Shr(x: bv64, k: bv7): bv64
    requires k < 64
  {
    x >> k
  }

  function Xor3(x: bv64, y: bv64, z: bv64): bv64 {
    x ^ y ^ z
  }

  function Sigma0(x: bv64): bv64 {
    Xor3(Rotr(x, 28), Rotr(x, 34), Rotr(x, 39))
  }

  function Sigma1(x: bv64): bv64 {
    Xor3(Rotr(x, 14), Rotr(x, 18), Rotr(x, 41))
  }

  function Small0(x: bv64): bv64 {
    Xor3(Rotr(x, 1), Rotr(x, 8), Shr(x, 7))
  }

  function Small1(x: bv64): bv64 {
    Xor3(Rotr(x, 19), Rotr(x, 61), Shr(x, 6))
  }

  /** The source's Ch. */
  function Choose(x: bv64, y: bv64, z: bv64): bv64 {
    z ^ (x & (y ^ z))
  }

  /** Ch of FIPS 180-4, section 4.1.3. */
  function Ch(x: bv64, y: bv64, z: bv64): bv64 {
    (x & y) ^ (!x & z)
  }

  /** The source's Maj. */
  function Majority(x: bv64, y: bv64, z: bv64): bv64 {
    ((x | y) & z) | (x & y)
  }

  /** Maj of FIPS 180-4, section 4.1.3. */
  function Maj(x: bv64, y: bv64, z: bv64): bv64 {
    (x & y) ^ (x & z) ^ (y & z)
  }

  /** The source's forms, with fewer operations, are the standard's. */
  lemma ChooseIsCh(x: bv64, y: bv64, z: bv64)
    ensures Choose(x, y, z) == Ch(x, y, z)
  {
    assert z ^ (x & (y ^ z)) == (x & y) ^ (!x & z);
  }

  lemma MajorityIsMaj(x: bv64, y: bv64, z: bv64)
    ensures Majority(x, y, z) == Maj(x, y, z)
  {
    assert ((x | y) & z) | (x & y) == (x & y) ^ (x & z) ^ (y & z);
  }

  // ---------- big-endian words ----------

  /** The big-endian number in a byte string. */
  function BE(b: seq<u8>): nat {
    if |b| == 0 then 0 else 0x100 * BE(b[..|b| - 1]) + b[|b| - 1]
  }

  /** The n bytes of a number, most significant first. */
  function BigEndian(v: nat, n: nat): (b: seq<u8>)
    ensures |b| == n
  {
    if n == 0 then [] else BigEndian(v / 0x100, n - 1) + [v % 0x100]
  }

  /** A byte joined below what has been read. */
  lemma OrLow(a: nat, x: nat, k: nat)
    requires k <= 48 && x < 0x100
    ensures Or(a * Pow2(k + 8), x * Pow2(k)) == (0x100 * a + x) * Pow2(k)
  {
    hide Or;
    var p := Pow2(k);
    Pow2Add(k, 8);
    assert Pow2(8) == 0x100;
    hide Pow2;
    MulMono(p, x, 0xff);
    OrCommute(a * Pow2(k + 8), x * p);
    OrAbove(x * p, a, k + 8, Pow2(k + 8));
    Shifted(a, x, p);
  }

  lemma Shifted(a: int, x: int, p: int)
    ensures (0x100 * a + x) * p == a * (p * 0x100) + x * p == x * p + (p * 0x100) * a
  {
  }

  /** sha512_LOAD64_BE. */
  function Load64BE(p: seq<u8>): nat
    requires |p| == 8
  {
    Or(Or(Or(Or(Or(Or(Or(p[0] as int * 0x100_0000_0000_0000, p[1] as int * 0x1_0000_0000_0000),
        p[2] as int * 0x100_0000_0000), p[3] as int * 0x1_0000_0000),
                p[4] as int * 0x100_0000), p[5] as int * 0x1_0000), p[6] as int * 0x100), p[7])
  }

  lemma Load64BEValue(p: seq<u8>)
    requires |p| == 8
    ensures Load64BE(p) == BE(p) < 0x1_0000_0000_0000_0000
  {
    hide Or;
    Pow2Bytes();
    var a1 := 0x100 * (p[0] as int) + p[1];
    var a2 := 0x100 * a1 + p[2];
    var a3 := 0x100 * a2 + p[3];
    var a4 := 0x100 * a3 + p[4];
    var a5 := 0x100 * a4 + p[5];
    var a6 := 0x100 * a5 + p[6];
    OrLow(p[0], p[1], 48);
    OrLow(a1, p[2], 40);
    OrLow(a2, p[3], 32);
    OrLow(a3, p[4], 24);
    OrLow(a4, p[5], 16);
    OrLow(a5, p[6], 8);
    OrLow(a6, p[7], 0);
    assert Pow2(0) == 1;
    EightBE(p);
  }

  lemma EightBE(p: seq<u8>)
    requires |p| == 8
    ensures BE(p) == 0x100 * (0x100 * (0x100 * (0x100 * (0x100 * (0x100 * (0x100 * (p[0] as int) + p[1]) + p[2]) + p[3])
                     + p[4]) + p[5]) + p[6]) + p[7]
  {
    assert p[..7][..6] == p[..6] && p[..6][..5] == p[..5] && p[..5][..4] == p[..4] && p[..4][..3] == p[..3];
    assert p[..3][..2] == p[..2] && p[..2][..1] == p[..1] && p[..1][..0] == [];
    assert BE(p[..1]) == p[0];
    assert BE(p[..2]) == 0x100 * BE(p[..1]) + p[1];
    assert BE(p[..3]) == 0x100 * BE(p[..2]) + p[2];
    assert BE(p[..4]) == 0x100 * BE(p[..3]) + p[3];
    assert BE(p[..5]) == 0x100 * BE(p[..4]) + p[4];
    assert BE(p[..6]) == 0x100 * BE(p[..5]) + p[5];
    assert BE(p[..7]) == 0x100 * BE(p[..6]) + p[6];
  }

  /** Writing a number and reading it back. */
  lemma {:induction false} BigEndianRoundTrip(v: nat, n: nat)
    requires v < Pow(0x100, n)
    ensures BE(BigEndian(v, n)) == v
  {
    if n > 0 {
      BigEndianRoundTrip(v / 0x100, n - 1);
      var b := BigEndian(v, n);
      assert b[..n - 1] == BigEndian(v / 0x100, n - 1);
    }
  }

  /** The bytes of the number that bytes spell. */
  lemma {:induction false} BytesOf(b: seq<u8>)
    ensures BigEndian(BE(b), |b|) == b
  {
    if |b| > 0 {
      BytesOf(b[..|b| - 1]);
      assert b == b[..|b| - 1] + [b[|b| - 1]];
    }
  }

  /** A long number is its halves one after the other. */
  lemma {:induction false} BigEndianJoin(hi: nat, lo: nat, m: nat, n: nat)
    requires lo < Pow(0x100, n)
    ensures BigEndian(hi * Pow(0x100, n) + lo, m + n) == BigEndian(hi, m) + BigEndian(lo, n)
  {
    if n == 0 {
      assert BigEndian(lo, 0) == [];
    } else {
      var p := Pow(0x100, n - 1);
      BigEndianJoin(hi, lo / 0x100, m, n - 1);
      JoinedByte(hi, p, lo);
      BigEndianStep(hi * (0x100 * p) + lo, m + n);
      BigEndianStep(lo, n);
      hide BigEndian;
    }
  }

  lemma BigEndianStep(v: nat, n: nat)
    requires n > 0
    ensures BigEndian(v, n) == BigEndian(v / 0x100, n - 1) + [v % 0x100]
  {
  }

  lemma JoinedByte(hi: nat, p: nat, lo: nat)
    ensures var v := hi * (0x100 * p) + lo; v / 0x100 == hi * p + lo / 0x100 && v % 0x100 == lo % 0x100
  {
    assert hi * (0x100 * p) == 0x100 * (hi * p);
    DivModUnique(hi * (0x100 * p) + lo, 0x100, hi * p + lo / 0x100, lo % 0x100);
  }

  /** sha512_STORE64_BE at position `at`. */
  method Store64BE(p: array<u8>, at: nat, v: u64)
    requires at + 8 <= p.Length
    modifies p
    ensures p[..] == old(p[..at]) + BigEndian(v, 8) + old(p[at + 8..])
  {
    hide BigEndian;
    ghost var b := BigEndian(v, 8);
    EightBytesBE(v);
    p[at] := (v / 0x100_0000_0000_0000) % 0x100;
    p[at + 1] := (v / 0x1_0000_0000_0000) % 0x100;
    p[at + 2] := (v / 0x100_0000_0000) % 0x100;
    p[at + 3] := (v / 0x1_0000_0000) % 0x100;
    p[at + 4] := (v / 0x100_0000) % 0x100;
    p[at + 5] := (v / 0x1_0000) % 0x100;
    p[at + 6] := (v / 0x100) % 0x100;
    p[at + 7] := v % 0x100;
    assert p[at..at + 8] == b;
  }

  lemma EightBytesBE(v: nat)
    ensures BigEndian(v, 8)
        == [(v / 0x100_0000_0000_0000) % 0x100, (v / 0x1_0000_0000_0000) % 0x100, (v / 0x100_0000_0000) % 0x100,
        (v / 0x1_0000_0000) % 0x100,
                                (v / 0x100_0000) % 0x100, (v / 0x1_0000) % 0x100, (v / 0x100) % 0x100, v % 0x100]
  {
    var v1 := v / 0x100;
    var v2 := v1 / 0x100;
    var v3 := v2 / 0x100;
    var v4 := v3 / 0x100;
    var v5 := v4 / 0x100;
    var v6 := v5 / 0x100;
    var v7 := v6 / 0x100;
    assert v2 == v / 0x1_0000 && v3 == v / 0x100_0000 && v4 == v / 0x1_0000_0000;
    assert v5 == v / 0x100_0000_0000 && v6 == v / 0x1_0000_0000_0000 && v7 == v / 0x100_0000_0000_0000;
    assert BigEndian(v7, 1) == BigEndian(v7 / 0x100, 0) + [v7 % 0x100] == [v7 % 0x100];
    assert BigEndian(v6, 2) == [v7 % 0x100, v6 % 0x100];
    assert BigEndian(v5, 3) == [v7 % 0x100, v6 % 0x100, v5 % 0x100];
    assert BigEndian(v4, 4) == [v7 % 0x100, v6 % 0x100, v5 % 0x100, v4 % 0x100];
    assert BigEndian(v3, 5) == [v7 % 0x100, v6 % 0x100, v5 % 0x100, v4 % 0x100, v3 % 0x100];
    assert BigEndian(v2, 6) == [v7 % 0x100, v6 % 0x100, v5 % 0x100, v4 % 0x100, v3 % 0x100, v2 % 0x100];
    assert BigEndian(v1, 7) == [v7 % 0x100, v6 % 0x100, v5 % 0x100, v4 % 0x100, v3 % 0x100, v2 % 0x100, v1 % 0x100];
  }

  // ---------- the compression function ----------

  /** The round constants of section 4.2.3. */
  function Constants(): (k: seq<bv64>)
    ensures |k| == 80
  {
    Constants0() + Constants1() + Constants2() + Constants3() + Constants4()
  }

  function Constants0(): (k: seq<bv64>)
    ensures |k| == 16
  {
    [ 0x428a_2f98_d728_ae22, 0x7137_4491_23ef_65cd, 0xb5c0_fbcf_ec4d_3b2f, 0xe9b5_dba5_8189_dbbc,
      0x3956_c25b_f348_b538, 0x59f1_11f1_b605_d019, 0x923f_82a4_af19_4f9b, 0xab1c_5ed5_da6d_8118,
      0xd807_aa98_a303_0242, 0x1283_5b01_4570_6fbe, 0x2431_85be_4ee4_b28c, 0x550c_7dc3_d5ff_b4e2,
      0x72be_5d74_f27b_896f, 0x80de_b1fe_3b16_96b1, 0x9bdc_06a7_25c7_1235, 0xc19b_f174_cf69_2694 ]
  }

  function Constants1(): (k: seq<bv64>)
    ensures |k| == 16
  {
    [ 0xe49b_69c1_9ef1_4ad2, 0xefbe_4786_384f_25e3, 0x0fc1_9dc6_8b8c_d5b5, 0x240c_a1cc_77ac_9c65,
      0x2de9_2c6f_592b_0275, 0x4a74_84aa_6ea6_e483, 0x5cb0_a9dc_bd41_fbd4, 0x76f9_88da_8311_53b5,
      0x983e_5152_ee66_dfab, 0xa831_c66d_2db4_3210, 0xb003_27c8_98fb_213f, 0xbf59_7fc7_beef_0ee4,
      0xc6e0_0bf3_3da8_8fc2, 0xd5a7_9147_930a_a725, 0x06ca_6351_e003_826f, 0x1429_2967_0a0e_6e70 ]
  }

  function Constants2(): (k: seq<bv64>)
    ensures |k| == 16
  {
    [ 0x27b7_0a85_46d2_2ffc, 0x2e1b_2138_5c26_c926, 0x4d2c_6dfc_5ac4_2aed, 0x5338_0d13_9d95_b3df,
      0x650a_7354_8baf_63de, 0x766a_0abb_3c77_b2a8, 0x81c2_c92e_47ed_aee6, 0x9272_2c85_1482_353b,
      0xa2bf_e8a1_4cf1_0364, 0xa81a_664b_bc42_3001, 0xc24b_8b70_d0f8_9791, 0xc76c_51a3_0654_be30,
      0xd192_e819_d6ef_5218, 0xd699_0624_5565_a910, 0xf40e_3585_5771_202a, 0x106a_a070_32bb_d1b8 ]
  }

  function Constants3(): (k: seq<bv64>)
    ensures |k| == 16
  {
    [ 0x19a4_c116_b8d2_d0c8, 0x1e37_6c08_5141_ab53, 0x2748_774c_df8e_eb99, 0x34b0_bcb5_e19b_48a8,
      0x391c_0cb3_c5c9_5a63, 0x4ed8_aa4a_e341_8acb, 0x5b9c_ca4f_7763_e373, 0x682e_6ff3_d6b2_b8a3,
      0x748f_82ee_5def_b2fc, 0x78a5_636f_4317_2f60, 0x84c8_7814_a1f0_ab72, 0x8cc7_0208_1a64_39ec,
      0x90be_fffa_2363_1e28, 0xa450_6ceb_de82_bde9, 0xbef9_a3f7_b2c6_7915, 0xc671_78f2_e372_532b ]
  }

  function Constants4(): (k: seq<bv64>)
    ensures |k| == 16
  {
    [ 0xca27_3ece_ea26_619c, 0xd186_b8c7_21c0_c207, 0xeada_7dd6_cde0_eb1e, 0xf57d_4f7f_ee6e_d178,
      0x06f0_67aa_7217_6fba, 0x0a63_7dc5_a2c8_98a6, 0x113f_9804_bef9_0dae, 0x1b71_0b35_131c_471b,
      0x28db_77f5_2304_7d84, 0x32ca_ab7b_40c7_2493, 0x3c9e_be0a_15c9_bebc, 0x431d_67c4_9c10_0d4c,
      0x4cc5_d4be_cb3e_42b6, 0x597f_299c_fc65_7e2a, 0x5fcb_6fab_3ad6_faec, 0x6c44_198c_4a47_5817 ]
  }

  /** The initial hash value of section 5.3.5. */
  function InitialHash(): (h: seq<bv64>)
    ensures |h| == 8
  {
    [ 0x6a09_e667_f3bc_c908, 0xbb67_ae85_84ca_a73b, 0x3c6e_f372_fe94_f82b, 0xa54f_f53a_5f1d_36f1,
      0x510e_527f_ade6_82d1, 0x9b05_688c_2b3e_6c1f, 0x1f83_d9ab_fb41_bd6b, 0x5be0_cd19_137e_2179
    ]
  }

  /** W_0 .. W_(n-1) of section 6.4.2. */
  function Schedule(block: seq<u8>, n: nat): (w: seq<bv64>)
    requires |block| == 128 && n <= 80
    ensures |w| == n
  {
    if n == 0 then []
    else
      var w := Schedule(block, n - 1);
      w + [ScheduleWord(block, w)]
  }

  /** A word as a number. */
  function Number(w: bv64): (v: nat)
    ensures v < 0x1_0000_0000_0000_0000
  {
    w as nat
  }

  /** A number as a word. */
  function Word(v: nat): bv64
    requires v < 0x1_0000_0000_0000_0000
  {
    v as bv64
  }

  /** Word t of a block. */
  function BlockWord(block: seq<u8>, t: nat): bv64
    requires |block| == 128 && t < 16
  {
    Load64BEValue(block[8 * t..8 * t + 8]);
    Word(BE(block[8 * t..8 * t + 8]))
  }

  function ScheduleWord(block: seq<u8>, w: seq<bv64>): bv64
    requires |block| == 128 && |w| < 80
  {
    var t := |w|;
    if t < 16 then BlockWord(block, t)
    else Plus(Plus(Plus(Small1(w[t - 2]), w[t - 7]), Small0(w[t - 15])), w[t - 16])
  }

  /** One round on (a, b, c, d, e, f, g, h). */
  function Round(s: seq<bv64>, k: bv64, w: bv64): (r: seq<bv64>)
    requires |s| == 8
    ensures |r| == 8
  {
    var t1 := Plus(Plus(Plus(Plus(s[7], Sigma1(s[4])), Ch(s[4], s[5], s[6])), k), w);
    var t2 := Plus(Sigma0(s[0]), Maj(s[0], s[1], s[2]));
    [Plus(t1, t2), s[0], s[1], s[2], Plus(s[3], t1), s[4], s[5], s[6]]
  }

  function Rounds(s: seq<bv64>, w: seq<bv64>, n: nat): (r: seq<bv64>)
    requires |s| == 8 && n <= |w| && n <= 80
    ensures |r| == 8
  {
    if n == 0 then s else Round(Rounds(s, w, n - 1), Constants()[n - 1], w[n - 1])
  }

  function AddWords(a: seq<bv64>, b: seq<bv64>): (r: seq<bv64>)
    requires |a| == 8 && |b| == 8
    ensures |r| == 8
  {
    seq(8, i requires 0 <= i < 8 => Plus(a[i], b[i]))
  }

  function Compress(h: seq<bv64>, block: seq<u8>): (r: seq<bv64>)
    requires |h| == 8 && |block| == 128
    ensures |r| == 8
  {
    AddWords(Rounds(h, Schedule(block, 80), 80), h)
  }

  /** The hash value after the first n blocks of `data`, in order. */
  function Fold(h: seq<bv64>, data: seq<u8>, n: nat): (r: seq<bv64>)
    requires |h| == 8 && 128 * n <= |data|
    ensures |r| == 8
  {
    if n == 0 then h
    else Compress(Fold(h, data, n - 1), data[128 * (n - 1)..128 * n])
  }

  lemma {:induction false} FoldPrefix(h: seq<bv64>, a: seq<u8>, b: seq<u8>, n: nat)
    requires |h| == 8 && 128 * n <= |a|
    ensures Fold(h, a + b, n) == Fold(h, a, n)
  {
    hide Compress;
    if n > 0 {
      FoldPrefix(h, a, b, n - 1);
      assert (a + b)[128 * (n - 1)..128 * n] == a[128 * (n - 1)..128 * n];
    }
  }

  lemma {:induction false} FoldAppend(h: seq<bv64>, a: seq<u8>, b: seq<u8>, n: nat, k: nat)
    requires |h| == 8 && |a| == 128 * n && 128 * k <= |b|
    ensures Fold(h, a + b, n + k) == Fold(Fold(h, a, n), b, k)
  {
    hide Compress;
    if k == 0 {
      FoldPrefix(h, a, b, n);
    } else {
      FoldAppend(h, a, b, n, k - 1);
      assert (a + b)[128 * (n + k - 1)..128 * (n + k)] == b[128 * (k - 1)..128 * k];
    }
  }

  // ---------- the whole hash ----------

  function Zeros(n: nat): (z: seq<u8>)
    ensures |z| == n && forall i :: 0 <= i < n ==> z[i] == 0
  {
    seq(n, i => 0)
  }

  /** Section 5.1.2: a 1 bit, zeros up to 112 modulo 128 bytes, and the bit length in 128 bits. */
  function Padding(m: seq<u8>): seq<u8> {
    [0x80] + Zeros((111 - |m|) % 128) + BigEndian((8 * |m|) % 0x1_0000_0000_0000_0000_0000_0000_0000_0000, 16)
  }

  /** The zeros fill this block, or this one and all of the next but the length. */
  function PadBlocks(pending: nat): nat {
    if pending <= 111 then 1 else 2
  }

  lemma PadZeros(l: nat, n: nat, p: nat)
    requires l == 128 * n + p && p < 128
    ensures (111 - l) % 128 == 128 * PadBlocks(p) - 17 - p
  {
    DivModUnique(111 - l, 128, 1 - PadBlocks(p) - n, 128 * PadBlocks(p) - 17 - p);
  }

  /** The words of a hash value as bytes, most significant first. */
  function DigestBytes(h: seq<bv64>): (b: seq<u8>)
    ensures |b| == 8 * |h|
  {
    if |h| == 0 then [] else DigestBytes(h[..|h| - 1]) + BigEndian(Number(h[|h| - 1]), 8)
  }

  /** SHA-512 of a message. */
  function Digest(m: seq<u8>): (d: seq<u8>)
    ensures |d| == 64
  {
    var padded := m + Padding(m);
    DigestBytes(Fold(InitialHash(), padded, |padded| / 128))
  }

  // ---------- sha512_blocks ----------

  /** STEP(i). */
  method Step(r: array<bv64>, k: bv64, w: bv64)
    requires r.Length == 8
    modifies r
    ensures r[..] == Round(old(r[..]), k, w)
  {
    hide Plus;
    hide Sigma0;
    hide Sigma1;
    hide Ch;
    hide Maj;
    hide Choose;
    hide Majority;
    ChooseIsCh(r[4], r[5], r[6]);
    MajorityIsMaj(r[0], r[1], r[2]);
    var t1 := Plus(Sigma0(r[0]), Majority(r[0], r[1], r[2]));
    var t0 := Plus(Plus(Plus(Plus(r[7], Sigma1(r[4])), Choose(r[4], r[5], r[6])), k), w);
    MoveWords(r, t0, t1);
  }

  /** The assignments of STEP. */
  method MoveWords(r: array<bv64>, t0: bv64, t1: bv64)
    requires r.Length == 8
    modifies r
    ensures var s := old(r[..]);
      r[..] == [Plus(t0, t1), s[0], s[1], s[2], Plus(s[3], t0), s[4], s[5], s[6]]
  {
    hide Plus;
    r[7] := r[6];
    r[6] := r[5];
    r[5] := r[4];
    r[4] := Plus(r[3], t0);
    r[3] := r[2];
    r[2] := r[1];
    r[1] := r[0];
    r[0] := Plus(t0, t1);
    assert r[..] == [r[0], r[1], r[2], r[3], r[4], r[5], r[6], r[7]];
  }

  /** The message schedule of one block. */
  method Expand(w: array<bv64>, block: seq<u8>)
    requires w.Length == 80 && |block| == 128
    modifies w
    ensures w[..] == Schedule(block, 80)
  {
    hide Plus;
    hide Small0;
    hide Small1;
    hide Load64BE;
    hide BE;
    hide Word;
    hide Schedule;
    ScheduleStart(block);
    var i := 0;
    while i < 16
      invariant 0 <= i <= 16
      invariant w[..i] == Schedule(block, i)
    {
      Load64BEValue(block[8 * i..8 * i + 8]);
      ScheduleStep(block, i);
      w[i] := Word(Load64BE(block[8 * i..8 * i + 8]));
      assert w[..i + 1] == w[..i] + [w[i]];
      i := i + 1;
    }
    while i < 80
      invariant 16 <= i <= 80
      invariant w[..i] == Schedule(block, i)
    {
      ScheduleStep(block, i);
      ghost var before := w[..i];
      w[i] := Plus(Plus(Plus(Small1(w[i - 2]), w[i - 7]), Small0(w[i - 15])), w[i - 16]);
      assert w[..i + 1] == before + [w[i]];
      i := i + 1;
    }
    assert w[..80] == w[..];
  }

  lemma ScheduleStart(block: seq<u8>)
    requires |block| == 128
    ensures Schedule(block, 0) == []
  {
  }

  lemma ScheduleStep(block: seq<u8>, n: nat)
    requires |block| == 128 && n < 80
    ensures Schedule(block, n + 1) == Schedule(block, n) + [ScheduleWord(block, Schedule(block, n))]
  {
    hide ScheduleWord;
  }

  /** All eighty rounds. */
  method AllRounds(r: array<bv64>, w: seq<bv64>)
    requires r.Length == 8 && |w| == 80
    modifies r
    ensures r[..] == Rounds(old(r[..]), w, 80)
  {
    hide Constants;
    hide Round;
    ghost var s := r[..];
    var i := 0;
    while i < 80
      invariant 0 <= i <= 80
      invariant r[..] == Rounds(s, w, i)
    {
      Step(r, Constants()[i], w[i]);
      i := i + 1;
    }
  }

  // ---------- the context ----------

  class Context {
    const H: array<bv64>
    const T: array<u64>
    var leftover: nat
    const buffer: array<u8>
    ghost var message: seq<u8>

    ghost predicate Shape()
    {
      H.Length == 8 && T.Length == 2 && buffer.Length == 128
    }

    ghost predicate Valid()
      reads this, H, T, buffer
    {
      && Shape() && leftover < 128
      && Held(H[..], buffer[..leftover], message) && Counted(T[0], T[1], |message| / 128)
    }

    /** ed25519_hash_init. */
    constructor ()
      ensures Valid() && message == [] && fresh(H) && fresh(T) && fresh(buffer)
    {
      hide Held;
      hide InitialHash;
      H, T, buffer := new bv64[8], new u64[2], new u8[128];
      leftover := 0;
      message := [];
      new;
      var h := InitialHash();
      var i := 0;
      while i < 8
        invariant 0 <= i <= 8 && leftover == 0 && message == []
        invariant forall k :: 0 <= k < i ==> H[k] == h[k]
      {
        H[i] := h[i];
        i := i + 1;
      }
      T[0], T[1] := 0, 0;
      assert H[..] == h;
      assert buffer[..0] == [];
      HeldNothing();
      hide Counted;
      CounterStart();
    }

    /** The bit counter steps by one block: T[0] is a multiple of 1024, so only its wrap to 0 carries. */
    method CountBlock(ghost n: nat)
      requires Shape() && Counted(T[0], T[1], n)
      modifies T
      ensures Counted(T[0], T[1], n + 1)
    {
      CounterLow(T[0], T[1], n);
      CounterStep(T[0], T[1], n);
      T[0] := (T[0] as int + 1024) % 0x1_0000_0000_0000_0000;
      T[1] := (T[1] as int + (if T[0] == 0 then 1 else 0)) % 0x1_0000_0000_0000_0000;
    }

    /** The last loop of a block: r += H, H = r. */
    method AddBack(r: array<bv64>)
      requires Shape() && r.Length == 8 && r != H
      modifies r, H
      ensures H[..] == r[..] == AddWords(old(r[..]), old(H[..]))
    {
      hide Plus;
      ghost var a, b := r[..], H[..];
      var i := 0;
      while i < 8
        invariant 0 <= i <= 8
        invariant forall k :: 0 <= k < i ==> r[k] == H[k] == Plus(a[k], b[k])
        invariant forall k :: i <= k < 8 ==> r[k] == a[k] && H[k] == b[k]
      {
        r[i] := Plus(r[i], H[i]);
        H[i] := r[i];
        i := i + 1;
      }
    }

    /** sha512_blocks. */
    method Blocks(input: seq<u8>, blocks: nat, ghost before: nat)
      requires Shape() && |input| >= 128 * blocks && Counted(T[0], T[1], before)
      modifies H, T
      ensures H[..] == Fold(old(H[..]), input, blocks)
      ensures Counted(T[0], T[1], before + blocks)
    {
      hide Rounds;
      hide Schedule;
      hide AddWords;
      hide Counted;
      var r, w := new bv64[8], new bv64[80];
      ghost var h := H[..];
      var i := 0;
      while i < 8
        invariant 0 <= i <= 8
        invariant forall k :: 0 <= k < i ==> r[k] == H[k]
        invariant H[..] == h && Counted(T[0], T[1], before)
      {
        r[i] := H[i];
        i := i + 1;
      }
      var n := 0;
      while n < blocks
        invariant 0 <= n <= blocks
        invariant r[..] == H[..] == Fold(h, input, n)
        invariant Counted(T[0], T[1], before + n)
      {
        Expand(w, input[128 * n..128 * (n + 1)]);
        AllRounds(r, w[..]);
        AddBack(r);
        CountBlock(before + n);
        n := n + 1;
      }
    }

    /** ed25519_hash_update: however a message is cut into pieces, the context holds the whole. */
    method Update(input: seq<u8>)
      requires Valid()
      modifies this, H, T, buffer
      ensures Valid() && message == old(message) + input
    {
      hide Held;
      hide Fold;
      hide Counted;
      HeldLength(H[..], buffer[..leftover], message);
      var rest := input;
      if leftover > 0 {
        var want := if 128 - leftover < |input| then 128 - leftover else |input|;
        ghost var p := buffer[..leftover];
        ghost var x := input[..want];
        Memcpy(buffer, leftover, input[..want]);
        leftover := leftover + want;
        assert buffer[..leftover] == p + x;
        ghost var m := message;
        message := m + x;
        if leftover < 128 {
          HeldGrows(H[..], p, m, x);
          assert x == input;
          return;
        }
        rest := input[want..];
        leftover := 0;
        HeldBlocks(H[..], p, m, x, 1);
        assert buffer[..] == p + x;
        Blocks(buffer[..], 1, |m| / 128);
        assert input == x + rest;
        assert message + rest == m + input;
      }
      assert buffer[..0] == [];
      Remaining(rest);
    }

    /** The second half of the update: whole blocks straight from the input, then what is left over. */
    method Remaining(rest: seq<u8>)
      requires Shape() && Held(H[..], [], message) && Counted(T[0], T[1], |message| / 128)
      modifies this, H, T, buffer
      ensures Valid() && message == old(message) + rest
    {
      hide Held;
      hide Fold;
      hide Counted;
      var blocks := |rest| - |rest| % 128;
      ghost var m := message;
      leftover := |rest| % 128;
      ghost var x, tail := rest[..blocks], rest[blocks..];
      if blocks > 0 {
        HeldBlocks(H[..], [], m, x, blocks / 128);
        assert [] + x == x && x + tail == rest;
        FoldPrefix(H[..], x, tail, blocks / 128);
        Blocks(rest, blocks / 128, |m| / 128);
      }
      message := m + x;
      assert blocks == 0 ==> message == m;
      if leftover > 0 {
        Memcpy(buffer, 0, rest[blocks..]);
      }
      assert buffer[..leftover] == [] + tail;
      HeldGrows(H[..], [], message, tail);
      message := message + tail;
      assert rest == x + tail;
    }

    /** ed25519_hash_final: SHA-512 of everything the context was fed. */
    method Final(hash: array<u8>)
      requires Valid() && hash != buffer && hash.Length == 64
      modifies H, T, buffer, hash
      ensures hash[..] == Digest(message)
    {
      hide Held;
      hide Fold;
      hide Counted;
      hide Digest;
      hide Padding;
      hide BigEndian;
      hide DigestBytes;
      ghost var h, p, n := H[..], buffer[..leftover], |message| / 128;
      HeldLength(h, p, message);
      CounterLow(T[0], T[1], n);
      var t0: u64, t1: u64 := T[0] as int + leftover * 8, T[1];
      PaddingShape(p, message, T[0], T[1]);
      LastBlocks(h, p, message);
      PadBuffer(n);
      if leftover > 111 {
        FoldAppend(h, p + [0x80] + Zeros(127 - leftover), Zeros(112) + (BigEndian(t1, 8) + BigEndian(t0, 8)), 1, 1);
      }
      LengthBlock(t0, t1, n + PadBlocks(leftover) - 1);
      WriteDigest(hash);
    }

    /** A 1 bit and zeros, in this block or in this one and the next. */
    method PadBuffer(ghost n: nat)
      requires Shape() && leftover < 128 && Counted(T[0], T[1], n)
      modifies H, T, buffer
      ensures Counted(T[0], T[1], n + PadBlocks(leftover) - 1)
      ensures var p := old(buffer[..leftover]);
        if leftover <= 111 then H[..] == old(H[..]) && buffer[..112] == p + [0x80] + Zeros(111 - leftover)
        else H[..] == Fold(old(H[..]), p + [0x80] + Zeros(127 - leftover), 1) && buffer[..112] == Zeros(112)
    {
      hide Fold;
      hide Counted;
      ghost var p := buffer[..leftover];
      buffer[leftover] := 0x80;
      if leftover <= 111 {
        Memset(buffer, leftover + 1, 111 - leftover);
        assert buffer[..112] == p + [0x80] + Zeros(111 - leftover);
      } else {
        Memset(buffer, leftover + 1, 127 - leftover);
        assert buffer[..] == p + [0x80] + Zeros(127 - leftover);
        Blocks(buffer[..], 1, n);
        Memset(buffer, 0, 112);
        assert buffer[..112] == Zeros(112);
      }
    }

    /** The length, and the last block. */
    method LengthBlock(t0: u64, t1: u64, ghost n: nat)
      requires Shape() && Counted(T[0], T[1], n)
      modifies H, T, buffer
      ensures H[..] == Fold(old(H[..]), old(buffer[..112]) + (BigEndian(t1, 8) + BigEndian(t0, 8)), 1)
    {
      hide Fold;
      hide Counted;
      hide BigEndian;
      ghost var start := buffer[..112];
      Store64BE(buffer, 112, t1);
      Store64BE(buffer, 120, t0);
      assert buffer[..] == start + (BigEndian(t1, 8) + BigEndian(t0, 8));
      Blocks(buffer[..], 1, n);
    }

    /** The eight words of H, most significant byte first. */
    method WriteDigest(hash: array<u8>)
      requires Shape() && hash.Length == 64
      modifies hash
      ensures hash[..] == DigestBytes(H[..])
    {
      hide BigEndian;
      var i := 0;
      while i < 8
        invariant 0 <= i <= 8
        invariant hash[..8 * i] == DigestBytes(H[..i])
      {
        ghost var done := hash[..8 * i];
        Store64BE(hash, 8 * i, Number(H[i]));
        assert H[..i + 1] == H[..i] + [H[i]];
        assert hash[..8 * (i + 1)] == done + BigEndian(Number(H[i]), 8);
        i := i + 1;
      }
      assert H[..8] == H[..] && hash[..64] == hash[..];
    }
  }

  // ---------- the bit counter ----------

  /** T[1]:T[0] is 1024 n modulo 2^128. */
  ghost predicate Counted(t0: int, t1: int, n: nat) {
    0 <= t0 < 0x1_0000_0000_0000_0000 && 0 <= t1 < 0x1_0000_0000_0000_0000
        && t0 + 0x1_0000_0000_0000_0000 * t1 == (1024 * n) % 0x1_0000_0000_0000_0000_0000_0000_0000_0000
  }

  lemma CounterStart()
    ensures Counted(0, 0, 0)
  {
  }

  /** T[0] is always a multiple of 1024, so the bits of a pending block fit below its top. */
  lemma CounterLow(t0: int, t1: int, n: nat)
    requires Counted(t0, t1, n)
    ensures t0 % 1024 == 0 && t0 <= 0x1_0000_0000_0000_0000 - 1024
  {
    var q := (1024 * n) / 0x1_0000_0000_0000_0000_0000_0000_0000_0000;
    var u := n - 0x40_0000_0000_0000_0000_0000_0000_0000 * q - 0x40_0000_0000_0000 * t1;
    assert t0 == 1024 * u + 0;
    DivModUnique(t0, 1024, u, 0);
  }

  lemma CounterStep(t0: int, t1: int, n: nat)
    requires Counted(t0, t1, n) && t0 <= 0x1_0000_0000_0000_0000 - 1024
    ensures var u := (t0 + 1024)
        % 0x1_0000_0000_0000_0000; Counted(u, (t1 + if u == 0 then 1 else 0) % 0x1_0000_0000_0000_0000, n + 1)
  {
    var q := (1024 * n) / 0x1_0000_0000_0000_0000_0000_0000_0000_0000;
    var v := t0 + 0x1_0000_0000_0000_0000 * t1;
    assert 1024 * n == 0x1_0000_0000_0000_0000_0000_0000_0000_0000 * q + v;
    if t0 < 0x1_0000_0000_0000_0000 - 1024 {
      DivModUnique(t0 + 1024, 0x1_0000_0000_0000_0000, 0, t0 + 1024);
      DivModUnique(t1, 0x1_0000_0000_0000_0000, 0, t1);
      DivModUnique(1024 * (n + 1), 0x1_0000_0000_0000_0000_0000_0000_0000_0000, q, v + 1024);
    } else if t1 < 0x1_0000_0000_0000_0000 - 1 {
      DivModUnique(t0 + 1024, 0x1_0000_0000_0000_0000, 1, 0);
      DivModUnique(t1 + 1, 0x1_0000_0000_0000_0000, 0, t1 + 1);
      DivModUnique(1024 * (n + 1), 0x1_0000_0000_0000_0000_0000_0000_0000_0000, q, v + 1024);
    } else {
      DivModUnique(t0 + 1024, 0x1_0000_0000_0000_0000, 1, 0);
      DivModUnique(t1 + 1, 0x1_0000_0000_0000_0000, 1, 0);
      DivModUnique(1024 * (n + 1), 0x1_0000_0000_0000_0000_0000_0000_0000_0000, q + 1, 0);
    }
  }

  /** With the pending bytes it gives the length field of the padding. */
  lemma CounterTotal(t0: int, t1: int, n: nat, p: nat)
    requires Counted(t0, t1, n) && p < 128 && t0 <= 0x1_0000_0000_0000_0000 - 1024
    ensures (8 * (128 * n + p)) % 0x1_0000_0000_0000_0000_0000_0000_0000_0000
        == t0 + 8 * p + 0x1_0000_0000_0000_0000 * t1
  {
    DivModUnique(8 * (128 * n + p), 0x1_0000_0000_0000_0000_0000_0000_0000_0000,
        (1024 * n) / 0x1_0000_0000_0000_0000_0000_0000_0000_0000, t0 + 8 * p + 0x1_0000_0000_0000_0000 * t1);
  }

  // ---------- what the context holds ----------

  /** Everything but the last, incomplete block `p` of the message has been compressed. */
  ghost predicate Held(h: seq<bv64>, p: seq<u8>, m: seq<u8>) {
    && |h| == 8
    && p == m[128 * (|m| / 128)..]
    && h == Fold(InitialHash(), m, |m| / 128)
  }

  /** The same, said of the compressed part alone. */
  lemma HeldPrefix(h: seq<bv64>, p: seq<u8>, m: seq<u8>) returns (a: seq<u8>, n: nat)
    requires Held(h, p, m)
    ensures m == a + p && |a| == 128 * n && n == |m| / 128 && |p| < 128
    ensures |h| == 8 && h == Fold(InitialHash(), a, n)
  {
    hide Fold;
    hide InitialHash;
    n := |m| / 128;
    a := m[..128 * n];
    assert m == a + p;
    FoldPrefix(InitialHash(), a, p, n);
  }

  lemma HeldFrom(h: seq<bv64>, a: seq<u8>, n: nat, p: seq<u8>)
    requires |a| == 128 * n && |p| < 128 && |h| == 8 && h == Fold(InitialHash(), a, n)
    ensures Held(h, p, a + p) && |a + p| / 128 == n
  {
    hide Fold;
    hide InitialHash;
    FoldPrefix(InitialHash(), a, p, n);
    DivModUnique(|a + p|, 128, n, |p|);
  }

  lemma HeldLength(h: seq<bv64>, p: seq<u8>, m: seq<u8>)
    requires Held(h, p, m)
    ensures |h| == 8 && |p| < 128 && |m| == 128 * (|m| / 128) + |p|
  {
    hide Fold;
    hide InitialHash;
  }

  lemma HeldNothing()
    ensures Held(InitialHash(), [], [])
  {
    hide InitialHash;
    var e: seq<u8> := [];
    assert e[128 * 0..] == e;
  }

  lemma Assoc(a: seq<u8>, b: seq<u8>, c: seq<u8>)
    ensures a + b + c == a + (b + c)
  {
  }

  /** Bytes that do not complete the block just lengthen it. */
  lemma HeldGrows(h: seq<bv64>, p: seq<u8>, m: seq<u8>, x: seq<u8>)
    requires Held(h, p, m) && |p| + |x| < 128
    ensures Held(h, p + x, m + x) && |m + x| / 128 == |m| / 128
  {
    hide Held;
    hide Fold;
    var a, n := HeldPrefix(h, p, m);
    Assoc(a, p, x);
    HeldFrom(h, a, n, p + x);
  }

  /** Bytes that complete k blocks are compressed after the pending ones. */
  lemma HeldBlocks(h: seq<bv64>, p: seq<u8>, m: seq<u8>, x: seq<u8>, k: nat)
    requires Held(h, p, m) && |p| + |x| == 128 * k
    ensures |h| == 8 && Held(Fold(h, p + x, k), [], m + x) && |m + x| / 128 == |m| / 128 + k
  {
    hide Held;
    hide Fold;
    hide InitialHash;
    var a, n := HeldPrefix(h, p, m);
    FoldAppend(InitialHash(), a, p + x, n, k);
    Assoc(a, p, x);
    HeldFrom(Fold(h, p + x, k), a + (p + x), n + k, []);
    assert m + x == a + (p + x) + [];
  }

  /** The digest continues from the blocks already compressed. */
  lemma LastBlocks(h: seq<bv64>, p: seq<u8>, m: seq<u8>)
    requires Held(h, p, m)
    ensures |h| == 8 && |p + Padding(m)| == 128 * PadBlocks(|p|)
    ensures Digest(m) == DigestBytes(Fold(h, p + Padding(m), PadBlocks(|p|)))
  {
    hide Held;
    hide Fold;
    hide InitialHash;
    var a, n := HeldPrefix(h, p, m);
    hide DigestBytes;
    PadZeros(|m|, n, |p|);
    PaddingLength(m);
    hide Padding;
    var d, k := Padding(m), PadBlocks(|p|);
    hide PadBlocks;
    Assoc(a, p, d);
    FoldAppend(InitialHash(), a, p + d, n, k);
    assert |m + d| == 128 * (n + k);
    DivModUnique(|m + d|, 128, n + k, 0);
  }

  lemma PaddingLength(m: seq<u8>)
    ensures |Padding(m)| == 17 + (111 - |m|) % 128
  {
    hide BigEndian;
    hide Zeros;
  }

  lemma LengthField(t0: nat, t1: nat)
    requires t0 < 0x1_0000_0000_0000_0000
    ensures BigEndian(t0 + 0x1_0000_0000_0000_0000 * t1, 16) == BigEndian(t1, 8) + BigEndian(t0, 8)
  {
    assert Pow(0x100, 4) == 0x1_0000_0000;
    PowAdd(0x100, 4, 4);
    BigEndianJoin(t1, t0, 8, 8);
  }

  /** What is still to compress: one more block, or two when the length does not fit in this one. */
  lemma PaddingShape(p: seq<u8>, m: seq<u8>, t0: u64, t1: u64)
    requires |p| < 128 && |m| == 128 * (|m| / 128) + |p| && Counted(t0, t1, |m| / 128)
        && t0 <= 0x1_0000_0000_0000_0000 - 1024
    ensures var len := BigEndian(t1, 8) + BigEndian(t0 as int + 8 * |p|, 8);
      p + Padding(m) == if |p| <= 111 then p + [0x80] + Zeros(111 - |p|) + len
                        else (p + [0x80] + Zeros(127 - |p|)) + (Zeros(112) + len)
  {
    hide BigEndian;
    hide Zeros;
    hide Padding;
    hide Counted;
    PadZeros(|m|, |m| / 128, |p|);
    PaddingIs(m);
    var len := LengthIs(|m|, |p|, t0, t1);
    Regroup(p, (111 - |m|) % 128, len);
  }

  /** The two stored words are the length field. */
  lemma LengthIs(m: nat, p: nat, t0: u64, t1: u64) returns (len: seq<u8>)
    requires p < 128 && m == 128 * (m / 128) + p && Counted(t0, t1, m / 128) && t0 <= 0x1_0000_0000_0000_0000 - 1024
    ensures len == BigEndian(t1, 8) + BigEndian(t0 as int + 8 * p, 8)
        == BigEndian((8 * m) % 0x1_0000_0000_0000_0000_0000_0000_0000_0000, 16)
  {
    hide BigEndian;
    CounterTotal(t0, t1, m / 128, p);
    hide Counted;
    len := BigEndian(t1, 8) + BigEndian(t0 as int + 8 * p, 8);
    LengthField(t0 as int + 8 * p, t1);
  }

  lemma PaddingIs(m: seq<u8>)
    ensures Padding(m) == [0x80] + Zeros((111 - |m|) % 128)
        + BigEndian((8 * |m|) % 0x1_0000_0000_0000_0000_0000_0000_0000_0000, 16)
  {
    hide BigEndian;
    hide Zeros;
  }

  lemma Regroup(p: seq<u8>, z: nat, len: seq<u8>)
    requires |p| < 128 && z == if |p| <= 111 then 111 - |p| else 239 - |p|
    ensures |p| <= 111 ==> p + ([0x80] + Zeros(z) + len) == p + [0x80] + Zeros(111 - |p|) + len
    ensures |p| > 111 ==> p + ([0x80] + Zeros(z) + len) == (p + [0x80] + Zeros(127 - |p|)) + (Zeros(112) + len)
  {
    var one: seq<u8> := [0x80];
    Assoc(p, one, Zeros(z) + len);
    Assoc(one, Zeros(z), len);
    Assoc(p + one, Zeros(z), len);
    if |p| > 111 {
      var a, b := Zeros(127 - |p|), Zeros(112);
      assert Zeros(z) == a + b;
      Assoc(a, b, len);
      Assoc(p + one, a, b + len);
    }
  }

  /** ed25519_hash: the one-shot hash. */
  method Hash(hash: array<u8>, input: seq<u8>)
    requires hash.Length == 64
    modifies hash
    ensures hash[..] == Digest(input)
  {
    hide Digest;
    hide Held;
    var ctx := new Context();
    ctx.Update(input);
    assert ctx.message == input;
    ctx.Final(hash);
  }

  method Memcpy(dst: array<u8>, at: nat, src: seq<u8>)
    requires at + |src| <= dst.Length
    modifies dst
    ensures dst[..] == old(dst[..at]) + src + old(dst[at + |src|..])
  {
    ghost var was := dst[..];
    var i := 0;
    while i < |src|
      invariant 0 <= i <= |src|
      invariant forall k :: 0 <= k < i ==> dst[at + k] == src[k]
      invariant forall k :: 0 <= k < dst.Length && !(at <= k < at + i) ==> dst[k] == was[k]
    {
      dst[at + i] := src[i];
      i := i + 1;
    }
  }

  method Memset(dst: array<u8>, at: nat, n: nat)
    requires at + n <= dst.Length
    modifies dst
    ensures dst[..] == old(dst[..at]) + Zeros(n) + old(dst[at + n..])
  {
    Memcpy(dst, at, seq(n, i => 0));
    assert seq(n, i => 0) == Zeros(n);
  }
}
