/**
 What pins the SHA-512 of the model to the standard: the rotating functions bit by bit, the constants as fractional
 parts of roots of primes, the schedule and the padding as the only sequences with the standard's properties, and the
 published digest of "abc".
 */
module Sha512Standard {
  import opened Numbers
  import opened Bytes
  import opened Sha512

  // ---------- the functions of section 4.1.3, bit by bit ----------

  /** Bit i of a word; sums of positions are modulo 64. */
  predicate Bit(x: bv64, i: bv6) {
    (x >> i) & 1 == 1
  }

  lemma XorBit(a: bv64, b: bv64, c: bv64, i: bv6)
    ensures Bit(a ^ b ^ c, i) == ((Bit(a, i) != Bit(b, i)) != Bit(c, i))
  {
  }

  lemma Xor3Bit(a: bv64, b: bv64, c: bv64, i: bv6)
    ensures Bit(Xor3(a, b, c), i) == ((Bit(a, i) != Bit(b, i)) != Bit(c, i))
  {
    hide Bit;
    XorBit(a, b, c, i);
  }

  lemma Rotr28(x: bv64, i: bv6)
    ensures Bit(Rotr(x, 28), i) == Bit(x, i + 28)
  {
  }

  lemma Rotr34(x: bv64, i: bv6)
    ensures Bit(Rotr(x, 34), i) == Bit(x, i + 34)
  {
  }

  lemma Rotr39(x: bv64, i: bv6)
    ensures Bit(Rotr(x, 39), i) == Bit(x, i + 39)
  {
  }

  lemma Rotr14(x: bv64, i: bv6)
    ensures Bit(Rotr(x, 14), i) == Bit(x, i + 14)
  {
  }

  lemma Rotr18(x: bv64, i: bv6)
    ensures Bit(Rotr(x, 18), i) == Bit(x, i + 18)
  {
  }

  lemma Rotr41(x: bv64, i: bv6)
    ensures Bit(Rotr(x, 41), i) == Bit(x, i + 41)
  {
  }

  lemma Rotr1(x: bv64, i: bv6)
    ensures Bit(Rotr(x, 1), i) == Bit(x, i + 1)
  {
  }

  lemma Rotr8(x: bv64, i: bv6)
    ensures Bit(Rotr(x, 8), i) == Bit(x, i + 8)
  {
  }

  lemma Rotr19(x: bv64, i: bv6)
    ensures Bit(Rotr(x, 19), i) == Bit(x, i + 19)
  {
  }

  lemma Rotr61(x: bv64, i: bv6)
    ensures Bit(Rotr(x, 61), i) == Bit(x, i + 61)
  {
  }

  lemma Shr7(x: bv64, i: bv6)
    ensures Bit(Shr(x, 7), i) == (i < 57 && Bit(x, i + 7))
  {
  }

  lemma Shr6(x: bv64, i: bv6)
    ensures Bit(Shr(x, 6), i) == (i < 58 && Bit(x, i + 6))
  {
  }

  lemma Sigma0Bit(x: bv64, i: bv6)
    ensures Bit(Sigma0(x), i) == ((Bit(x, i + 28) != Bit(x, i + 34)) != Bit(x, i + 39))
  {
    hide Bit;
    hide Rotr;
    hide Shr;
    hide Xor3;
    Rotr28(x, i);
    Rotr34(x, i);
    Rotr39(x, i);
    Xor3Bit(Rotr(x, 28), Rotr(x, 34), Rotr(x, 39), i);
  }

  lemma Sigma1Bit(x: bv64, i: bv6)
    ensures Bit(Sigma1(x), i) == ((Bit(x, i + 14) != Bit(x, i + 18)) != Bit(x, i + 41))
  {
    hide Bit;
    hide Rotr;
    hide Shr;
    hide Xor3;
    Rotr14(x, i);
    Rotr18(x, i);
    Rotr41(x, i);
    Xor3Bit(Rotr(x, 14), Rotr(x, 18), Rotr(x, 41), i);
  }

  lemma Small0Bit(x: bv64, i: bv6)
    ensures Bit(Small0(x), i) == ((Bit(x, i + 1) != Bit(x, i + 8)) != (i < 57 && Bit(x, i + 7)))
  {
    hide Bit;
    hide Rotr;
    hide Shr;
    hide Xor3;
    Rotr1(x, i);
    Rotr8(x, i);
    Shr7(x, i);
    Xor3Bit(Rotr(x, 1), Rotr(x, 8), Shr(x, 7), i);
  }

  lemma Small1Bit(x: bv64, i: bv6)
    ensures Bit(Small1(x), i) == ((Bit(x, i + 19) != Bit(x, i + 61)) != (i < 58 && Bit(x, i + 6)))
  {
    hide Bit;
    hide Rotr;
    hide Shr;
    hide Xor3;
    Rotr19(x, i);
    Rotr61(x, i);
    Shr6(x, i);
    Xor3Bit(Rotr(x, 19), Rotr(x, 61), Shr(x, 6), i);
  }

  /** Bit i of each of the four functions is the exclusive or of the bits the standard names. */
  lemma SigmaBits(x: bv64, i: bv6)
    ensures Bit(Sigma0(x), i) == ((Bit(x, i + 28) != Bit(x, i + 34)) != Bit(x, i + 39))
    ensures Bit(Sigma1(x), i) == ((Bit(x, i + 14) != Bit(x, i + 18)) != Bit(x, i + 41))
    ensures Bit(Small0(x), i) == ((Bit(x, i + 1) != Bit(x, i + 8)) != (i < 57 && Bit(x, i + 7)))
    ensures Bit(Small1(x), i) == ((Bit(x, i + 19) != Bit(x, i + 61)) != (i < 58 && Bit(x, i + 6)))
  {
    hide *;
    Sigma0Bit(x, i);
    Sigma1Bit(x, i);
    Small0Bit(x, i);
    Small1Bit(x, i);
  }

  lemma ChosenBit(x: bv64, y: bv64, z: bv64, i: bv6)
    ensures Bit((x & y) ^ (!x & z), i) == if Bit(x, i) then Bit(y, i) else Bit(z, i)
  {
  }

  lemma MajorityBit(x: bv64, y: bv64, z: bv64, i: bv6)
    ensures Bit((x & y) ^ (x & z) ^ (y & z), i) == if Bit(x, i) == Bit(y, i) then Bit(x, i) else Bit(z, i)
  {
  }

  /** Ch takes the bit of y or of z as the bit of x says, and Maj the majority. */
  lemma ChoiceBits(x: bv64, y: bv64, z: bv64, i: bv6)
    ensures Bit(Ch(x, y, z), i) == if Bit(x, i) then Bit(y, i) else Bit(z, i)
    ensures Bit(Maj(x, y, z), i) == if Bit(x, i) == Bit(y, i) then Bit(x, i) else Bit(z, i)
  {
    hide Bit;
    ChosenBit(x, y, z, i);
    MajorityBit(x, y, z, i);
  }

  // ---------- the constants of sections 4.2.3 and 5.3.5 ----------

  predicate IsPrime(n: nat) {
    n >= 2 && forall d :: 2 <= d < n ==> n % d != 0
  }

  /** The first eighty primes. */
  function Primes(): (p: seq<nat>)
    ensures |p| == 80
  {
    Primes0() + Primes1() + Primes2() + Primes3() + Primes4()
  }

  function Primes0(): (p: seq<nat>)
    ensures |p| == 16
  {
    [2, 3, 5, 7, 11, 13, 17, 19, 23, 29, 31, 37, 41, 43, 47, 53]
  }

  function Primes1(): (p: seq<nat>)
    ensures |p| == 16
  {
    [59, 61, 67, 71, 73, 79, 83, 89, 97, 101, 103, 107, 109, 113, 127, 131]
  }

  function Primes2(): (p: seq<nat>)
    ensures |p| == 16
  {
    [137, 139, 149, 151, 157, 163, 167, 173, 179, 181, 191, 193, 197, 199, 211, 223]
  }

  function Primes3(): (p: seq<nat>)
    ensures |p| == 16
  {
    [227, 229, 233, 239, 241, 251, 257, 263, 269, 271, 277, 281, 283, 293, 307, 311]
  }

  function Primes4(): (p: seq<nat>)
    ensures |p| == 16
  {
    [313, 317, 331, 337, 347, 349, 353, 359, 367, 373, 379, 383, 389, 397, 401, 409]
  }
  /** No prime below 23 divides n, unless it is n. */
  predicate NoSmallFactor(n: nat) {
    && (n % 2 != 0 || n == 2) && (n % 3 != 0 || n == 3) && (n % 5 != 0 || n == 5) && (n % 7 != 0 || n == 7)
    && (n % 11 != 0 || n == 11) && (n % 13 != 0 || n == 13) && (n % 17 != 0 || n == 17) && (n % 19 != 0 || n == 19)
  }

  lemma SmallFactor(d: nat) returns (q: nat)
    requires 2 <= d < 23
    ensures q in {2, 3, 5, 7, 11, 13, 17, 19} && q <= d && d % q == 0
  {
    q := if d % 2 == 0 then 2 else if d % 3 == 0 then 3 else if d % 5 == 0 then 5 else if d % 7 == 0 then 7 else d;
  }

  lemma FactorOfFactor(n: nat, d: nat, e: nat) 
    requires n == d * e && 2 <= d < 23 && d < n && n < 529
    ensures !NoSmallFactor(n)
  {
    var q := SmallFactor(d);
    MultipleMod(q, (d / q) * e);
    assert n == q * ((d / q) * e) by {
      assert d == q * (d / q);
    }
  }

  lemma SmallPrime(n: nat)
    requires 2 <= n < 529 && NoSmallFactor(n)
    ensures IsPrime(n)
  {
    hide NoSmallFactor;
    forall d | 2 <= d < n
      ensures n % d != 0
    {
      if n % d == 0 {
        HasSmallFactor(n, d, n / d);
      }
    }
  }

  /** One of two factors is below 23. */
  lemma HasSmallFactor(n: nat, d: nat, e: nat)
    requires n == d * e && 2 <= d < n < 529
    ensures !NoSmallFactor(n)
  {
    hide NoSmallFactor;
    if d < 23 {
      FactorOfFactor(n, d, e);
    } else {
      if e >= 23 {
        MulMono(d, 23, e);
      }
      if e <= 1 {
        MulMono(d, e, 1);
      }
      FactorOfFactor(n, e, d);
    }
  }

  lemma PrimeGroup0(t: nat)
    requires t < 16
    ensures IsPrime(Primes0()[t]) && (t > 0 ==> Primes0()[t - 1] < Primes0()[t])
  {
    hide IsPrime;
    assert t < 8 ==> t == 0 || t == 1 || t == 2 || t == 3 || t == 4 || t == 5 || t == 6 || t == 7;
    assert t >= 8 ==> t == 8 || t == 9 || t == 10 || t == 11 || t == 12 || t == 13 || t == 14 || t == 15;
    SmallPrime(Primes0()[t]);
  }

  lemma PrimeGroup1(t: nat)
    requires t < 16
    ensures IsPrime(Primes1()[t]) && (t > 0 ==> Primes1()[t - 1] < Primes1()[t])
  {
    hide IsPrime;
    assert t < 8 ==> t == 0 || t == 1 || t == 2 || t == 3 || t == 4 || t == 5 || t == 6 || t == 7;
    assert t >= 8 ==> t == 8 || t == 9 || t == 10 || t == 11 || t == 12 || t == 13 || t == 14 || t == 15;
    SmallPrime(Primes1()[t]);
  }

  lemma PrimeGroup2(t: nat)
    requires t < 16
    ensures IsPrime(Primes2()[t]) && (t > 0 ==> Primes2()[t - 1] < Primes2()[t])
  {
    hide IsPrime;
    assert t < 8 ==> t == 0 || t == 1 || t == 2 || t == 3 || t == 4 || t == 5 || t == 6 || t == 7;
    assert t >= 8 ==> t == 8 || t == 9 || t == 10 || t == 11 || t == 12 || t == 13 || t == 14 || t == 15;
    SmallPrime(Primes2()[t]);
  }

  lemma PrimeGroup3(t: nat)
    requires t < 16
    ensures IsPrime(Primes3()[t]) && (t > 0 ==> Primes3()[t - 1] < Primes3()[t])
  {
    hide IsPrime;
    assert t < 8 ==> t == 0 || t == 1 || t == 2 || t == 3 || t == 4 || t == 5 || t == 6 || t == 7;
    assert t >= 8 ==> t == 8 || t == 9 || t == 10 || t == 11 || t == 12 || t == 13 || t == 14 || t == 15;
    SmallPrime(Primes3()[t]);
  }

  lemma PrimeGroup4(t: nat)
    requires t < 16
    ensures IsPrime(Primes4()[t]) && (t > 0 ==> Primes4()[t - 1] < Primes4()[t])
  {
    hide IsPrime;
    assert t < 8 ==> t == 0 || t == 1 || t == 2 || t == 3 || t == 4 || t == 5 || t == 6 || t == 7;
    assert t >= 8 ==> t == 8 || t == 9 || t == 10 || t == 11 || t == 12 || t == 13 || t == 14 || t == 15;
    SmallPrime(Primes4()[t]);
  }

  /** The eighty numbers are primes in increasing order. */
  lemma PrimesInOrder(t: nat)
    requires t < 80
    ensures IsPrime(Primes()[t]) && (t > 0 ==> Primes()[t - 1] < Primes()[t])
  {
    hide IsPrime;
    hide NoSmallFactor;
    if t < 16 {
      PrimeGroup0(t);
    } else if t < 32 {
      PrimeGroup1(t - 16);
    } else if t < 48 {
      PrimeGroup2(t - 32);
    } else if t < 64 {
      PrimeGroup3(t - 48);
    } else {
      PrimeGroup4(t - 64);
    }
    assert Primes0()[15] == 53 && Primes1()[15] == 131 && Primes2()[15] == 223 && Primes3()[15] == 311;
    assert Primes1()[0] == 59 && Primes2()[0] == 137 && Primes3()[0] == 227 && Primes4()[0] == 313;
  }

  function Cube(x: nat): nat {
    x * x * x
  }

  /** The integral part of the cube root of a number below 512. */
  function CubeRoot(p: nat): nat {
    if p < 8 then 1 else if p < 27 then 2 else if p < 64 then 3 else if p < 125 then 4
    else if p < 216 then 5 else if p < 343 then 6 else 7
  }

  /** k is the first 64 bits of the fractional part of the cube root of p. */
  predicate IsCubeRootPart(k: bv64, p: nat) {
    var x := 0x1_0000_0000_0000_0000 * CubeRoot(p) + k as nat;
    Cube(x) <= p * 0x1_0000_0000_0000_0000_0000_0000_0000_0000_0000_0000_0000_0000 < Cube(x + 1)
  }

  lemma RootParts0()
    ensures IsCubeRootPart(0x428a_2f98_d728_ae22, 2) && IsCubeRootPart(0x7137_4491_23ef_65cd, 3)
    ensures IsCubeRootPart(0xb5c0_fbcf_ec4d_3b2f, 5) && IsCubeRootPart(0xe9b5_dba5_8189_dbbc, 7)
    ensures IsCubeRootPart(0x3956_c25b_f348_b538, 11) && IsCubeRootPart(0x59f1_11f1_b605_d019, 13)
    ensures IsCubeRootPart(0x923f_82a4_af19_4f9b, 17) && IsCubeRootPart(0xab1c_5ed5_da6d_8118, 19)
    ensures IsCubeRootPart(0xd807_aa98_a303_0242, 23) && IsCubeRootPart(0x1283_5b01_4570_6fbe, 29)
    ensures IsCubeRootPart(0x2431_85be_4ee4_b28c, 31) && IsCubeRootPart(0x550c_7dc3_d5ff_b4e2, 37)
    ensures IsCubeRootPart(0x72be_5d74_f27b_896f, 41) && IsCubeRootPart(0x80de_b1fe_3b16_96b1, 43)
    ensures IsCubeRootPart(0x9bdc_06a7_25c7_1235, 47) && IsCubeRootPart(0xc19b_f174_cf69_2694, 53)
  {
  }

  lemma RoundConstants0(t: nat)
    requires t < 16
    ensures IsCubeRootPart(Constants0()[t], Primes0()[t])
  {
    hide IsCubeRootPart;
    RootParts0();
    assert t < 8 ==> t == 0 || t == 1 || t == 2 || t == 3 || t == 4 || t == 5 || t == 6 || t == 7;
    assert t >= 8 ==> t == 8 || t == 9 || t == 10 || t == 11 || t == 12 || t == 13 || t == 14 || t == 15;
  }

  lemma RootParts1()
    ensures IsCubeRootPart(0xe49b_69c1_9ef1_4ad2, 59) && IsCubeRootPart(0xefbe_4786_384f_25e3, 61)
    ensures IsCubeRootPart(0x0fc1_9dc6_8b8c_d5b5, 67) && IsCubeRootPart(0x240c_a1cc_77ac_9c65, 71)
    ensures IsCubeRootPart(0x2de9_2c6f_592b_0275, 73) && IsCubeRootPart(0x4a74_84aa_6ea6_e483, 79)
    ensures IsCubeRootPart(0x5cb0_a9dc_bd41_fbd4, 83) && IsCubeRootPart(0x76f9_88da_8311_53b5, 89)
    ensures IsCubeRootPart(0x983e_5152_ee66_dfab, 97) && IsCubeRootPart(0xa831_c66d_2db4_3210, 101)
    ensures IsCubeRootPart(0xb003_27c8_98fb_213f, 103) && IsCubeRootPart(0xbf59_7fc7_beef_0ee4, 107)
    ensures IsCubeRootPart(0xc6e0_0bf3_3da8_8fc2, 109) && IsCubeRootPart(0xd5a7_9147_930a_a725, 113)
    ensures IsCubeRootPart(0x06ca_6351_e003_826f, 127) && IsCubeRootPart(0x1429_2967_0a0e_6e70, 131)
  {
  }

  lemma RoundConstants1(t: nat)
    requires t < 16
    ensures IsCubeRootPart(Constants1()[t], Primes1()[t])
  {
    hide IsCubeRootPart;
    RootParts1();
    assert t < 8 ==> t == 0 || t == 1 || t == 2 || t == 3 || t == 4 || t == 5 || t == 6 || t == 7;
    assert t >= 8 ==> t == 8 || t == 9 || t == 10 || t == 11 || t == 12 || t == 13 || t == 14 || t == 15;
  }

  lemma RootParts2()
    ensures IsCubeRootPart(0x27b7_0a85_46d2_2ffc, 137) && IsCubeRootPart(0x2e1b_2138_5c26_c926, 139)
    ensures IsCubeRootPart(0x4d2c_6dfc_5ac4_2aed, 149) && IsCubeRootPart(0x5338_0d13_9d95_b3df, 151)
    ensures IsCubeRootPart(0x650a_7354_8baf_63de, 157) && IsCubeRootPart(0x766a_0abb_3c77_b2a8, 163)
    ensures IsCubeRootPart(0x81c2_c92e_47ed_aee6, 167) && IsCubeRootPart(0x9272_2c85_1482_353b, 173)
    ensures IsCubeRootPart(0xa2bf_e8a1_4cf1_0364, 179) && IsCubeRootPart(0xa81a_664b_bc42_3001, 181)
    ensures IsCubeRootPart(0xc24b_8b70_d0f8_9791, 191) && IsCubeRootPart(0xc76c_51a3_0654_be30, 193)
    ensures IsCubeRootPart(0xd192_e819_d6ef_5218, 197) && IsCubeRootPart(0xd699_0624_5565_a910, 199)
    ensures IsCubeRootPart(0xf40e_3585_5771_202a, 211) && IsCubeRootPart(0x106a_a070_32bb_d1b8, 223)
  {
  }

  lemma RoundConstants2(t: nat)
    requires t < 16
    ensures IsCubeRootPart(Constants2()[t], Primes2()[t])
  {
    hide IsCubeRootPart;
    RootParts2();
    assert t < 8 ==> t == 0 || t == 1 || t == 2 || t == 3 || t == 4 || t == 5 || t == 6 || t == 7;
    assert t >= 8 ==> t == 8 || t == 9 || t == 10 || t == 11 || t == 12 || t == 13 || t == 14 || t == 15;
  }

  lemma RootParts3()
    ensures IsCubeRootPart(0x19a4_c116_b8d2_d0c8, 227) && IsCubeRootPart(0x1e37_6c08_5141_ab53, 229)
    ensures IsCubeRootPart(0x2748_774c_df8e_eb99, 233) && IsCubeRootPart(0x34b0_bcb5_e19b_48a8, 239)
    ensures IsCubeRootPart(0x391c_0cb3_c5c9_5a63, 241) && IsCubeRootPart(0x4ed8_aa4a_e341_8acb, 251)
    ensures IsCubeRootPart(0x5b9c_ca4f_7763_e373, 257) && IsCubeRootPart(0x682e_6ff3_d6b2_b8a3, 263)
    ensures IsCubeRootPart(0x748f_82ee_5def_b2fc, 269) && IsCubeRootPart(0x78a5_636f_4317_2f60, 271)
    ensures IsCubeRootPart(0x84c8_7814_a1f0_ab72, 277) && IsCubeRootPart(0x8cc7_0208_1a64_39ec, 281)
    ensures IsCubeRootPart(0x90be_fffa_2363_1e28, 283) && IsCubeRootPart(0xa450_6ceb_de82_bde9, 293)
    ensures IsCubeRootPart(0xbef9_a3f7_b2c6_7915, 307) && IsCubeRootPart(0xc671_78f2_e372_532b, 311)
  {
  }

  lemma RoundConstants3(t: nat)
    requires t < 16
    ensures IsCubeRootPart(Constants3()[t], Primes3()[t])
  {
    hide IsCubeRootPart;
    RootParts3();
    assert t < 8 ==> t == 0 || t == 1 || t == 2 || t == 3 || t == 4 || t == 5 || t == 6 || t == 7;
    assert t >= 8 ==> t == 8 || t == 9 || t == 10 || t == 11 || t == 12 || t == 13 || t == 14 || t == 15;
  }

  lemma RootParts4()
    ensures IsCubeRootPart(0xca27_3ece_ea26_619c, 313) && IsCubeRootPart(0xd186_b8c7_21c0_c207, 317)
    ensures IsCubeRootPart(0xeada_7dd6_cde0_eb1e, 331) && IsCubeRootPart(0xf57d_4f7f_ee6e_d178, 337)
    ensures IsCubeRootPart(0x06f0_67aa_7217_6fba, 347) && IsCubeRootPart(0x0a63_7dc5_a2c8_98a6, 349)
    ensures IsCubeRootPart(0x113f_9804_bef9_0dae, 353) && IsCubeRootPart(0x1b71_0b35_131c_471b, 359)
    ensures IsCubeRootPart(0x28db_77f5_2304_7d84, 367) && IsCubeRootPart(0x32ca_ab7b_40c7_2493, 373)
    ensures IsCubeRootPart(0x3c9e_be0a_15c9_bebc, 379) && IsCubeRootPart(0x431d_67c4_9c10_0d4c, 383)
    ensures IsCubeRootPart(0x4cc5_d4be_cb3e_42b6, 389) && IsCubeRootPart(0x597f_299c_fc65_7e2a, 397)
    ensures IsCubeRootPart(0x5fcb_6fab_3ad6_faec, 401) && IsCubeRootPart(0x6c44_198c_4a47_5817, 409)
  {
  }

  lemma RoundConstants4(t: nat)
    requires t < 16
    ensures IsCubeRootPart(Constants4()[t], Primes4()[t])
  {
    hide IsCubeRootPart;
    RootParts4();
    assert t < 8 ==> t == 0 || t == 1 || t == 2 || t == 3 || t == 4 || t == 5 || t == 6 || t == 7;
    assert t >= 8 ==> t == 8 || t == 9 || t == 10 || t == 11 || t == 12 || t == 13 || t == 14 || t == 15;
  }

  /** Round constant t is the fractional part of the cube root of prime t. */
  lemma RoundConstants(t: nat)
    requires t < 80
    ensures IsCubeRootPart(Constants()[t], Primes()[t])
  {
    hide IsCubeRootPart;
    if t < 16 {
      RoundConstants0(t);
    } else if t < 32 {
      RoundConstants1(t - 16);
    } else if t < 48 {
      RoundConstants2(t - 32);
    } else if t < 64 {
      RoundConstants3(t - 48);
    } else {
      RoundConstants4(t - 64);
    }
  }

  /** The integral part of the square root of a number below 25. */
  function SquareRoot(p: nat): nat {
    if p < 4 then 1 else if p < 9 then 2 else if p < 16 then 3 else 4
  }

  /** k is the first 64 bits of the fractional part of the square root of p. */
  predicate IsSquareRootPart(k: bv64, p: nat) {
    var x := 0x1_0000_0000_0000_0000 * SquareRoot(p) + k as nat;
    x * x <= p * 0x1_0000_0000_0000_0000_0000_0000_0000_0000 < (x + 1) * (x + 1)
  }

  /** The initial hash value is the fractional parts of the square roots of the first eight primes. */
  lemma InitialWords(t: nat)
    requires t < 8
    ensures IsSquareRootPart(InitialHash()[t], Primes()[t])
  {
    hide IsSquareRootPart;
    SquareRootParts();
    assert t == 0 || t == 1 || t == 2 || t == 3 || t == 4 || t == 5 || t == 6 || t == 7;
  }

  lemma SquareRootParts()
    ensures IsSquareRootPart(0x6a09_e667_f3bc_c908, 2) && IsSquareRootPart(0xbb67_ae85_84ca_a73b, 3)
    ensures IsSquareRootPart(0x3c6e_f372_fe94_f82b, 5) && IsSquareRootPart(0xa54f_f53a_5f1d_36f1, 7)
    ensures IsSquareRootPart(0x510e_527f_ade6_82d1, 11) && IsSquareRootPart(0x9b05_688c_2b3e_6c1f, 13)
    ensures IsSquareRootPart(0x1f83_d9ab_fb41_bd6b, 17) && IsSquareRootPart(0x5be0_cd19_137e_2179, 19)
  {
  }

  // ---------- the schedule of section 6.4.2 ----------

  /** Word t follows from the words before it. */
  predicate FollowsAt(w: seq<bv64>, t: nat)
    requires 16 <= t < |w|
  {
    w[t] == Plus(Plus(Plus(Small1(w[t - 2]), w[t - 7]), Small0(w[t - 15])), w[t - 16])
  }

  /** Whatever starts with the words of the block and goes on by the recurrence is the schedule. */
  lemma {:induction false} ScheduleIs(block: seq<u8>, w: seq<bv64>, n: nat)
    requires |block| == 128 && |w| == 80 && n <= 80
    requires forall t :: 0 <= t < 16 ==> w[t] == BlockWord(block, t)
    requires forall t :: 16 <= t < 80 ==> FollowsAt(w, t)
    ensures Schedule(block, n) == w[..n]
  {
    hide BlockWord;
    hide Plus;
    hide Small0;
    hide Small1;
    if n > 0 {
      ScheduleIs(block, w, n - 1);
      assert n > 16 ==> FollowsAt(w, n - 1);
      assert w[..n] == w[..n - 1] + [w[n - 1]];
    }
  }

  // ---------- the padding of section 5.1.2 ----------

  /** A 1 bit, the fewest zeros that fill blocks of 128 bytes, and the length in bits as a 128-bit number. */
  predicate IsPadding(m: seq<u8>, p: seq<u8>) {
    && 17 <= |p| < 17 + 128 && (|m| + |p|) % 128 == 0
    && p[0] == 0x80 && (forall i :: 1 <= i < |p| - 16 ==> p[i] == 0)
    && BE(p[|p| - 16..]) == (8 * |m|) % 0x1_0000_0000_0000_0000_0000_0000_0000_0000
  }

  lemma PaddingFits(m: seq<u8>, p: seq<u8>)
    ensures IsPadding(m, p) <==> p == Padding(m)
  {
    hide BE;
    hide BigEndian;
    PaddingIs(m);
    hide Padding;
    var l, z := (8 * |m|) % 0x1_0000_0000_0000_0000_0000_0000_0000_0000, (111 - |m|) % 128;
    assert Pow(0x100, 16) == 0x1_0000_0000_0000_0000_0000_0000_0000_0000 by {
      assert Pow(0x100, 4) == 0x1_0000_0000;
      PowAdd(0x100, 4, 4);
      PowAdd(0x100, 8, 8);
    }
    BigEndianRoundTrip(l, 16);
    PadLength(|m|, |p|);
    if IsPadding(m, p) {
      BytesOf(p[|p| - 16..]);
      assert p == [0x80] + Zeros(z) + BigEndian(l, 16);
    }
    if p == Padding(m) {
      assert p[|p| - 16..] == BigEndian(l, 16);
    }
  }

  lemma PadLength(m: nat, p: nat)
    ensures 17 <= p < 17 + 128 && (m + p) % 128 == 0 <==> p == 17 + (111 - m) % 128
  {
  }
}
