/**
 Keys, signing and verification (ed25519.cpp; sections 5.1.5 to 5.1.7 of RFC 8032). Verification accepts exactly
 the signatures that meet the equation R = [S]B - [h]A, and it accepts every signature the signer makes.
 */
module Signatures {
  import opened Numbers
  import opened Bytes
  import opened Scalars
  import opened Modm
  import opened ModmBytes
  import opened Field25519
  import opened Groups
  import opened EdwardsLaw
  import opened EdwardsFormulas
  import opened ScalarMult
  import opened BaseMult
  import opened PointBytes
  import FieldBytes
  import Sha512

  // ---------- clamping ----------

  lemma HalfMod(x: nat, p: nat)
    requires p > 0
    ensures x / (2 * p) == (x / 2) / p && x % (2 * p) == 2 * ((x / 2) % p) + x % 2
  {
    var q, r := (x / 2) / p, (x / 2) % p;
    assert x / 2 == p * q + r;
    DivModUnique(x, 2 * p, q, 2 * r + x % 2);
  }

  lemma MaskStep(x: nat, p: nat)
    requires p > 0
    ensures And(x, 2 * p - 1) == 2 * And(x / 2, p - 1) + x % 2
  {
    BitSteps(x, 2 * p - 1);
    hide And;
    assert (2 * p - 1) / 2 == p - 1;
  }

  lemma {:induction false} AndMask(x: nat, k: nat)
    ensures And(x, Pow2(k) - 1) == x % Pow2(k)
  {
    if k > 0 {
      AndMask(x / 2, k - 1);
      AndMaskStep(x, Pow2(k - 1));
    }
  }

  lemma AndMaskStep(x: nat, p: nat)
    requires p > 0 && And(x / 2, p - 1) == (x / 2) % p
    ensures And(x, 2 * p - 1) == x % (2 * p)
  {
    hide And;
    MaskStep(x, p);
    HalfMod(x, p);
  }

  lemma EvenMask(x: nat, y: nat)
    requires y % 2 == 0
    ensures And(x, y) == 2 * And(x / 2, y / 2) && Or(x, y) == 2 * Or(x / 2, y / 2) + x % 2
  {
    BitSteps(x, y);
  }

  lemma ClearLow(x: nat)
    requires x < 0x100
    ensures And(x, 248) == 8 * (x / 8)
  {
    hide And;
    var x1 := x / 2;
    var x2 := x1 / 2;
    EvenMask(x, 248);
    EvenMask(x1, 124);
    EvenMask(x2, 62);
    assert Pow2(5) == 32;
    AndMask(x / 8, 5);
    assert x2 / 2 == x / 8 && (x / 8) % 32 == x / 8;
  }

  lemma KeepTop(x: nat)
    requires x < 0x100
    ensures And(x, 224) == 0x20 * (x / 0x20)
  {
    hide And;
    var x1 := x / 2;
    var x2 := x1 / 2;
    var x3 := x2 / 2;
    var x4 := x3 / 2;
    EvenMask(x, 224);
    EvenMask(x1, 112);
    EvenMask(x2, 56);
    EvenMask(x3, 28);
    EvenMask(x4, 14);
    assert Pow2(3) == 8;
    AndMask(x / 32, 3);
    assert x4 / 2 == x / 32 && (x / 32) % 8 == x / 32;
  }

  lemma SetBit6(x: nat)
    requires x < 0x80
    ensures Or(x, 64) == x % 0x40 + 0x40
  {
    hide Or;
    var x1 := x / 2;
    var x2 := x1 / 2;
    var x3 := x2 / 2;
    var x4 := x3 / 2;
    var x5 := x4 / 2;
    EvenMask(x, 64);
    EvenMask(x1, 32);
    EvenMask(x2, 16);
    EvenMask(x3, 8);
    EvenMask(x4, 4);
    EvenMask(x5, 2);
    OrOne(x5 / 2);
    assert x == 64 * (x5 / 2) + 32 * (x5 % 2) + 16 * (x4 % 2) + 8 * (x3 % 2) + 4 * (x2 % 2) + 2 * (x1 % 2) + x % 2;
  }

  /** `x & 248`, `x & 127`, `(x & 127) | 64` and `x & 224` on a byte. */
  lemma ByteMasks(x: u8)
    ensures And(x, 248) == 8 * (x / 8)
    ensures And(x, 127) == x % 0x80
    ensures Or(And(x, 127), 64) == x % 0x40 + 0x40
    ensures And(x, 224) == 0x20 * (x / 0x20)
  {
    hide And;
    hide Or;
    ClearLow(x);
    KeepTop(x);
    assert Pow2(7) == 128;
    AndMask(x, 7);
    SetBit6(x % 0x80);
    assert x % 0x80 % 0x40 == x % 0x40;
  }

  lemma OrOne(x: nat)
    requires x < 2
    ensures Or(x, 1) == 1
  {
  }

  /** The secret scalar in 32 bytes: low three bits cleared, bit 254 set, bit 255 cleared. */
  function Clamped(v: nat): nat {
    0x4000_0000_0000_0000_0000_0000_0000_0000_0000_0000_0000_0000_0000_0000_0000_0000
        + 8 * ((v / 8) % 0x800_0000_0000_0000_0000_0000_0000_0000_0000_0000_0000_0000_0000_0000_0000_0000)
  }

  lemma ClampValue(h: seq<u8>, c: seq<u8>)
    requires |h| == 32 && |c| == 32 && LE(h) >= 0 && c[1..31] == h[1..31]
    requires c[0] == 8 * (h[0] / 8) && c[31] == h[31] % 0x40 + 0x40
    ensures LE(c) == Clamped(LE(h))
  {
    hide Clamped;
    var mid := Eval(0x100, h[1..31]);
    ThreeParts(h);
    ThreeParts(c);
    assert 0 <= mid < 0x1_0000_0000_0000_0000_0000_0000_0000_0000_0000_0000_0000_0000_0000_0000_0000 by {
      EvalBound(0x100, h[1..31]);
      Pow256Of31();
      assert Pow(0x100, 31) == 0x100 * Pow(0x100, 30);
    }
    ClampInts(h[0], mid, h[31]);
  }

  lemma ClampInts(low: int, mid: int, top: int)
    requires 0 <= low < 0x100
        && 0 <= mid < 0x1_0000_0000_0000_0000_0000_0000_0000_0000_0000_0000_0000_0000_0000_0000_0000 && 0 <= top < 0x100
    ensures 8 * (low / 8) + 0x100 * mid
        + 0x100_0000_0000_0000_0000_0000_0000_0000_0000_0000_0000_0000_0000_0000_0000_0000 * (top % 0x40 + 0x40)
        == Clamped(low + 0x100 * mid
        + 0x100_0000_0000_0000_0000_0000_0000_0000_0000_0000_0000_0000_0000_0000_0000_0000 * top)
  {
    var v := low + 0x100 * mid + 0x100_0000_0000_0000_0000_0000_0000_0000_0000_0000_0000_0000_0000_0000_0000_0000 * top;
    assert v / 8 == low / 8 + 0x20 * mid
        + 0x20_0000_0000_0000_0000_0000_0000_0000_0000_0000_0000_0000_0000_0000_0000_0000 * top;
    DivModUnique(v / 8, 0x800_0000_0000_0000_0000_0000_0000_0000_0000_0000_0000_0000_0000_0000_0000_0000, top / 0x40,
        low / 8 + 0x20 * mid
        + 0x20_0000_0000_0000_0000_0000_0000_0000_0000_0000_0000_0000_0000_0000_0000_0000 * (top % 0x40));
  }

  lemma ThreeParts(b: seq<u8>)
    requires |b| == 32
    ensures LE(b) == b[0] as int + 0x100 * Eval(0x100, b[1..31])
        + 0x100_0000_0000_0000_0000_0000_0000_0000_0000_0000_0000_0000_0000_0000_0000_0000 * (b[31] as int)
  {
    TopByte(b);
    assert b[..31][1..] == b[1..31];
    assert LE(b[..31]) == b[..31][0] + 0x100 * Eval(0x100, b[..31][1..]);
  }

  /** Divisible by 8, of 255 bits, and in bits 3 to 253 the number itself. */
  lemma ClampedIs(v: nat)
    ensures Clamped(v) % 8 == 0
        && 0x4000_0000_0000_0000_0000_0000_0000_0000_0000_0000_0000_0000_0000_0000_0000_0000 <= Clamped(v)
        < 0x8000_0000_0000_0000_0000_0000_0000_0000_0000_0000_0000_0000_0000_0000_0000_0000
    ensures (Clamped(v) / 8) % 0x800_0000_0000_0000_0000_0000_0000_0000_0000_0000_0000_0000_0000_0000_0000_0000
        == (v / 8) % 0x800_0000_0000_0000_0000_0000_0000_0000_0000_0000_0000_0000_0000_0000_0000_0000
  {
  }

  // ---------- keys ----------

  /** The secret scalar and the prefix of a seed (section 5.1.5). */
  ghost function SecretScalar(sk: seq<u8>): nat {
    LEBound(Sha512.Digest(sk)[..32]);
    Clamped(LE(Sha512.Digest(sk)[..32]))
  }

  /** The secret scalar is the first half of the hash of the seed, clamped. */
  lemma SecretScalarIs(sk: seq<u8>)
    ensures SecretScalar(sk) % 8 == 0
        && 0x4000_0000_0000_0000_0000_0000_0000_0000_0000_0000_0000_0000_0000_0000_0000_0000 <= SecretScalar(sk)
        < 0x8000_0000_0000_0000_0000_0000_0000_0000_0000_0000_0000_0000_0000_0000_0000_0000
    ensures (SecretScalar(sk) / 8) % 0x800_0000_0000_0000_0000_0000_0000_0000_0000_0000_0000_0000_0000_0000_0000_0000
        == (LE(Sha512.Digest(sk)[..32]) / 8)
        % 0x800_0000_0000_0000_0000_0000_0000_0000_0000_0000_0000_0000_0000_0000_0000_0000
  {
    hide LE;
    hide Sha512.Digest;
    hide Clamped;
    LEBound(Sha512.Digest(sk)[..32]);
    ClampedIs(LE(Sha512.Digest(sk)[..32]));
  }

  ghost function Prefix(sk: seq<u8>): (p: seq<u8>)
    ensures |p| == 32
  {
    Sha512.Digest(sk)[32..]
  }

  /** ed25519_extsk: the clamped scalar, then the prefix. */
  method ExtSk(extsk: array<u8>, sk: seq<u8>)
    requires extsk.Length == 64 && |sk| == 32
    modifies extsk
    ensures LE(extsk[..32]) == SecretScalar(sk) && extsk[32..] == Prefix(sk)
  {
    hide LE;
    hide And;
    hide Or;
    hide Clamped;
    hide Sha512.Digest;
    Sha512.Hash(extsk, sk);
    ghost var h: seq<u8> := extsk[..32];
    LEBound(h);
    ByteMasks(extsk[0]);
    ByteMasks(extsk[31]);
    extsk[0] := And(extsk[0], 248);
    extsk[31] := And(extsk[31], 127);
    extsk[31] := Or(extsk[31], 64);
    ClampValue(h, extsk[..32]);
  }

  /** L kills the point; behind a quantifier, as OnCurve is. */
  ghost predicate OrderL(b: CurvePoint) {
    forall q: CurvePoint :: q == b ==> Times(L, q) == Point(0, 1)
  }

  /** L is the order of the point; behind a quantifier likewise. */
  ghost predicate OfOrderL(b: CurvePoint) {
    forall q: CurvePoint :: q == b ==> HasOrder(EdwardsGroup(), q, L)
  }

  /** Multiples of a point of order L depend on the scalar modulo L only. */
  lemma TimesModL(n: nat, b: CurvePoint)
    requires CurveLaws() && OrderL(b)
    ensures Times(n % L, b) == Times(n, b)
  {
    hide CurveLaws;
    hide IsAbelian;
    hide OnCurve;
    hide EAdd;
    hide ENeg;
    hide EdwardsGroup;
    hide Groups.Mul;
    GroupIsAbelian();
    assert Times(L, b) == Point(0, 1);
    var g, q := EdwardsGroup(), n / L;
    ZeroIs();
    MulMul(g, q, L, b);
    MulOfZero(g, q);
    MulAdd(g, n % L, q * L, b);
    Identity(g, Times(n % L, b));
    assert n == n % L + q * L;
  }

  lemma ZeroIs()
    ensures EdwardsGroup().zero == Point(0, 1)
  {
    hide EAdd;
    hide ENeg;
  }

  /** ed25519_publickey. */
  method PublicKey(sk: seq<u8>, pk: array<u8>, table: seq<seq<u8>>, ghost b: CurvePoint)
    requires CurveLaws() && OrderL(b) && BaseMultiples(table, b) && |sk| == 32 && pk.Length == 32
    modifies pk
    ensures Encodes(pk[..], Times(SecretScalar(sk), b))
  {
    hide CurveLaws;
    hide BaseMultiples;
    hide OrderL;
    hide Times;
    hide SecretScalar;
    hide Prefix;
    hide LE;
    hide Val;
    hide IsFull;
    hide IsPartial;
    hide OnCurve;
    hide Res;
    hide Red;
    var extsk, a := new u8[64], new u64[5];
    var p := new Ge();
    ExtSk(extsk, sk);
    Expand256(a, extsk[..32]);
    SmallerThanTop();
    ScalarmultBase(p, table, a, b);
    TimesModL(SecretScalar(sk), b);
    FullIsPartial(p.Value(), Times(Val(a[..]), b));
    Pack(pk, p, Times(Val(a[..]), b));
    assert pk[..32] == pk[..];
  }

  lemma SmallerThanTop()
    ensures forall x: int :: 0 <= x % L < L
    ensures L < TWO255
  {
  }

  // ---------- hashing a signature ----------

  /** H(R, A, M) as a scalar. */
  ghost function Challenge(rBytes: seq<u8>, pk: seq<u8>, m: seq<u8>): (h: nat)
    ensures h < L
  {
    LE(Sha512.Digest(rBytes + pk + m)) % L
  }

  /** H(prefix, M) as a scalar. */
  ghost function Nonce(sk: seq<u8>, m: seq<u8>): (r: nat)
    ensures r < L
  {
    LE(Sha512.Digest(Prefix(sk) + m)) % L
  }

  /** ed25519_hram. */
  method Hram(hram: array<u8>, rs: seq<u8>, pk: seq<u8>, m: seq<u8>)
    requires hram.Length == 64 && |rs| >= 32 && |pk| == 32
    modifies hram
    ensures hram[..] == Sha512.Digest(rs[..32] + pk + m)
  {
    hide Sha512.Digest;
    hide Sha512.Held;
    hide Sha512.Counted;
    var ctx := new Sha512.Context();
    ctx.Update(rs[..32]);
    ctx.Update(pk);
    ctx.Update(m);
    assert ctx.message == rs[..32] + pk + m;
    ctx.Final(hram);
  }

  /** The nonce hash. */
  method NonceHash(hashr: array<u8>, prefix: seq<u8>, m: seq<u8>)
    requires hashr.Length == 64
    modifies hashr
    ensures hashr[..] == Sha512.Digest(prefix + m)
  {
    hide Sha512.Digest;
    hide Sha512.Held;
    hide Sha512.Counted;
    var ctx := new Sha512.Context();
    ctx.Update(prefix);
    ctx.Update(m);
    assert ctx.message == prefix + m;
    ctx.Final(hashr);
  }

  // ---------- signing ----------

  /** The signature of section 5.1.6: R = [r]B and S = r + h a modulo L. */
  ghost predicate IsSignature(rs: seq<u8>, m: seq<u8>, sk: seq<u8>, pk: seq<u8>, b: CurvePoint) {
    |rs| == 64 && forall c: CurvePoint :: c == b ==> Signs(rs, m, sk, pk, c)
  }

  ghost predicate Signs(rs: seq<u8>, m: seq<u8>, sk: seq<u8>, pk: seq<u8>, b: CurvePoint)
    requires |rs| == 64
  {
    && Encodes(rs[..32], Times(Nonce(sk, m), b))
    && LE(rs[32..]) == (Nonce(sk, m) + Challenge(rs[..32], pk, m) * SecretScalar(sk)) % L
  }

  /** The same with the hashes written out. */
  lemma SignatureIs(rs: seq<u8>, m: seq<u8>, sk: seq<u8>, pk: seq<u8>, b: CurvePoint)
    ensures IsSignature(rs, m, sk, pk, b)
            <==> && |rs| == 64
                 && Encodes(rs[..32], Times(LE(Sha512.Digest(Sha512.Digest(sk)[32..] + m)) % L, b))
                 && LE(rs[32..]) == (LE(Sha512.Digest(Sha512.Digest(sk)[32..] + m)) % L
                                     + LE(Sha512.Digest(rs[..32] + pk + m)) % L * SecretScalar(sk)) % L
  {
    hide OnCurve;
    hide LE;
    hide Encodes;
    hide Times;
    hide SecretScalar;
    hide Sha512.Digest;
    assert |rs| == 64 ==> (IsSignature(rs, m, sk, pk, b) <==> Signs(rs, m, sk, pk, b));
  }

  /** Two signatures by one key share their R exactly when the hashes of prefix and message agree modulo L. */
  lemma SameCommitment(r1: seq<u8>, m1: seq<u8>, r2: seq<u8>, m2: seq<u8>, sk: seq<u8>, pk: seq<u8>, b: CurvePoint)
    requires CurveLaws() && OfOrderL(b)
    requires IsSignature(r1, m1, sk, pk, b) && IsSignature(r2, m2, sk, pk, b)
    ensures r1[..32] == r2[..32]
            <==> LE(Sha512.Digest(Sha512.Digest(sk)[32..] + m1)) % L
                 == LE(Sha512.Digest(Sha512.Digest(sk)[32..] + m2)) % L
  {
    hide CurveLaws;
    hide OfOrderL;
    hide OnCurve;
    hide LE;
    hide Encodes;
    hide Times;
    hide SecretScalar;
    hide Challenge;
    hide Sha512.Digest;
    assert Signs(r1, m1, sk, pk, b) && Signs(r2, m2, sk, pk, b);
    var n1, n2 := Nonce(sk, m1), Nonce(sk, m2);
    if n1 == n2 {
      EncodingOfPointUnique(r1[..32], r2[..32], Times(n1, b));
    }
    if r1[..32] == r2[..32] {
      EncodedPointUnique(r1[..32], Times(n1, b), Times(n2, b));
      SameMultiples(n1, n2, b);
    }
  }

  /** r and R. */
  method Commit(rs: array<u8>, r: array<u64>, prefix: seq<u8>, m: seq<u8>, table: seq<seq<u8>>, ghost b: CurvePoint)
    requires CurveLaws() && BaseMultiples(table, b) && rs.Length == 64 && r.Length == 5
    modifies rs, r
    ensures Limbs(r[..], 0x1_0000_0000) && Val(r[..]) == LE(Sha512.Digest(prefix + m)) % L
    ensures Encodes(rs[..32], Times(Val(r[..]), b))
  {
    hide CurveLaws;
    hide BaseMultiples;
    hide Times;
    hide LE;
    hide Val;
    hide IsFull;
    hide IsPartial;
    hide OnCurve;
    hide Res;
    hide Red;
    hide Encodes;
    hide Sha512.Digest;
    var hashr := new u8[64];
    var p := new Ge();
    NonceHash(hashr, prefix, m);
    Expand256(r, hashr[..]);
    SmallerThanTop();
    ScalarmultBase(p, table, r, b);
    FullIsPartial(p.Value(), Times(Val(r[..]), b));
    Pack(rs, p, Times(Val(r[..]), b));
  }

  /** S = r + H(R, A, M) a modulo L, written after R. */
  method Respond(rs: array<u8>, r: array<u64>, a: array<u64>, pk: seq<u8>, m: seq<u8>)
    requires rs.Length == 64 && |pk| == 32 && r.Length == 5 && a.Length == 5
    requires Limbs(r[..], 0x1_0000_0000) && Val(r[..]) < L && Limbs(a[..], 0x1_0000_0000)
    modifies rs
    ensures rs[..32] == old(rs[..32])
    ensures LE(rs[32..]) == (Val(r[..]) + LE(Sha512.Digest(rs[..32] + pk + m)) % L * Val(a[..])) % L
  {
    hide LE;
    hide Val;
    hide Sha512.Digest;
    var hram, s := new u8[64], new u64[5];
    ghost var first := rs[..32];
    assert rs[..][..32] == first;
    Hram(hram, rs[..], pk, m);
    Expand256(s, hram[..]);
    ghost var h := Val(s[..]);
    Mul256(s, s, a);
    SmallerThanTop();
    AddModL(h * Val(a[..]), Val(r[..]));
    Add256(s, s, r);
    Contract256(rs, 32, s);
    assert rs[32..64] == rs[32..];
  }

  lemma AddModL(x: int, y: int)
    ensures (x % L + y) % L == (y + x) % L
  {
    ModShift(x % L + y, L, x / L);
    assert x == x % L + L * (x / L);
  }

  /** ed25519_sign. */
  method Sign(m: seq<u8>, sk: seq<u8>, pk: seq<u8>, rs: array<u8>, table: seq<seq<u8>>, ghost b: CurvePoint)
    requires CurveLaws() && BaseMultiples(table, b)
    requires |sk| == 32 && |pk| == 32 && rs.Length == 64
    modifies rs
    ensures IsSignature(rs[..], m, sk, pk, b)
  {
    hide CurveLaws;
    hide BaseMultiples;
    hide Times;
    hide LE;
    hide Val;
    hide OnCurve;
    hide Encodes;
    hide SecretScalar;
    hide Prefix;
    hide Sha512.Digest;
    var extsk, r, a := new u8[64], new u64[5], new u64[5];
    ExtSk(extsk, sk);
    Commit(rs, r, extsk[32..], m, table, b);
    Expand256(a, extsk[..32]);
    Respond(rs, r, a, pk, m);
    hide Nonce;
    ghost var c := Challenge(rs[..32], pk, m);
    hide Challenge;
    MulModL(Val(r[..]), c, SecretScalar(sk));
    assert rs[..][..32] == rs[..32] && rs[..][32..] == rs[32..];
  }

  lemma MulModL(r: int, c: int, a: int)
    ensures (r + c * (a % L)) % L == (r + c * a) % L
  {
    ModShift(r + c * (a % L), L, c * (a / L));
    assert a == a % L + L * (a / L);
    assert c * (L * (a / L)) == L * (c * (a / L));
    assert c * (a % L + L * (a / L)) == c * (a % L) + c * (L * (a / L));
  }

  // ---------- verification ----------

  /** R = [S]B - [h]A, with S below 2^253 and a decodable A. */
  ghost predicate Accepts(m: seq<u8>, pk: seq<u8>, rs: seq<u8>, b: CurvePoint)
    requires |pk| == 32 && |rs| == 64
  {
    LE(rs[32..]) < TWO253 && forall c: CurvePoint :: c == b ==> Solves(m, pk, rs, c)
  }

  /** The key decodes and R meets the equation; `Accepts` keeps it behind a quantifier, as `OnCurve` does. */
  ghost predicate Solves(m: seq<u8>, pk: seq<u8>, rs: seq<u8>, b: CurvePoint)
    requires |pk| == 32 && |rs| == 64
  {
    exists q: CurvePoint :: DecodesTo(pk, q) && Encodes(rs[..32], Checked(m, pk, rs, q, b))
  }

  /** [h](-A) + [S]B. */
  ghost function Checked(m: seq<u8>, pk: seq<u8>, rs: seq<u8>, q: CurvePoint, b: CurvePoint): CurvePoint
    requires |pk| == 32 && |rs| == 64
  {
    Joint(Challenge(rs[..32], pk, m), LE(rs[32..]) % L, q, b)
  }

  /** Acceptance with nothing abbreviated. */
  lemma AcceptsIs(m: seq<u8>, pk: seq<u8>, rs: seq<u8>, b: CurvePoint)
    requires |pk| == 32 && |rs| == 64
    ensures Accepts(m, pk, rs, b)
            <==> && LE(rs[32..]) < 0x2000_0000_0000_0000_0000_0000_0000_0000_0000_0000_0000_0000_0000_0000_0000_0000
                 && exists q: CurvePoint ::
                      && DecodesTo(pk, q)
                      && Encodes(rs[..32], Plus(Times(LE(Sha512.Digest(rs[..32] + pk + m)) % L, q),
                                                Times(LE(rs[32..]) % L, b)))
  {
    hide OnCurve;
    hide LE;
    hide Encodes;
    hide DecodesTo;
    hide Times;
    hide Plus;
    hide Sha512.Digest;
    var h, s := LE(Sha512.Digest(rs[..32] + pk + m)) % L, LE(rs[32..]) % L;
    assert forall q: CurvePoint :: Checked(m, pk, rs, q, b) == Plus(Times(h, q), Times(s, b));
    assert Accepts(m, pk, rs, b) <==> LE(rs[32..]) < TWO253 && Solves(m, pk, rs, b);
  }

  /** Decoding has one result. */
  lemma DecodesUnique(b: seq<u8>, p: Point, q: Point)
    requires CurveLaws() && |b| == 32 && DecodesTo(b, p) && DecodesTo(b, q)
    ensures p == q
  {
    hide CurveLaws;
    hide YOf;
    hide SignOf;
    hide OnCurve;
    hide FSub;
    Coordinates(p);
    Coordinates(q);
    RootsAgreeFor(p, q);
    NegatedParity(p.x);
    assert p == Point(p.x, p.y) && q == Point(q.x, q.y);
  }

  lemma RootsAgreeFor(p: Point, q: Point)
    requires CurveLaws() && OnCurve(p) && OnCurve(q) && p.y == q.y
    ensures q.x == p.x || q.x == FSub(0, p.x)
  {
    hide CurveLaws;
    assert Point(p.x, p.y) == p && Point(q.x, q.y) == q;
    SquareRoots.RootsAgree(p.x, q.x, p.y);
  }

  /** `RS[63] & 224`: whether S has a bit at 253 or above. */
  lemma TopBits(s: seq<u8>)
    requires |s| == 32
    ensures And(s[31], 224) == 0 <==> LE(s) < TWO253
  {
    ByteMasks(s[31]);
    hide And;
    TopByte(s);
    hide LE;
    TopInts(LE(s[..31]), s[31]);
  }

  lemma TopInts(low: int, top: int)
    requires 0 <= low < 0x100_0000_0000_0000_0000_0000_0000_0000_0000_0000_0000_0000_0000_0000_0000_0000
        && 0 <= top < 0x100
    ensures 0x20 * (top / 0x20) == 0
        <==> low + 0x100_0000_0000_0000_0000_0000_0000_0000_0000_0000_0000_0000_0000_0000_0000_0000 * top < TWO253
  {
  }

  /** h and S. */
  method CheckScalars(hram: array<u64>, s: array<u64>, m: seq<u8>, pk: seq<u8>, rs: seq<u8>)
    requires hram.Length == 5 && s.Length == 5 && hram != s && |pk| == 32 && |rs| == 64
    modifies hram, s
    ensures Limbs(hram[..], 0x1_0000_0000) && Limbs(s[..], 0x1_0000_0000)
    ensures Val(hram[..]) == LE(Sha512.Digest(rs[..32] + pk + m)) % L < TWO255
    ensures Val(s[..]) == LE(rs[32..]) % L < TWO255
  {
    hide LE;
    hide Val;
    hide Sha512.Digest;
    var hash := new u8[64];
    Hram(hash, rs, pk, m);
    Expand256(hram, hash[..]);
    Expand256(s, rs[32..]);
    SmallerThanTop();
  }

  /** The bytes of [S]B - [h]A. */
  method CheckBytes(m: seq<u8>, pk: seq<u8>, rs: seq<u8>, p: Ge, table: seq<Niels>,
      ghost q: CurvePoint, ghost b: CurvePoint, ghost region: set<array<u64>>) returns (checkR: array<u8>)
    requires CurveLaws() && |pk| == 32 && |rs| == 64
    requires p.Shape() && p.AllRed() && IsFull(p.Value(), q) && SlidingMultiples(table, b, region)
    ensures fresh(checkR) && checkR.Length == 32 && Encodes(checkR[..], Checked(m, pk, rs, q, b))
  {
    hide CurveLaws;
    hide LE;
    hide Val;
    hide Eval;
    hide Limbs;
    hide Sha512.Digest;
    hide SlidingMultiples;
    hide IsFull;
    hide IsPartial;
    hide OnCurve;
    hide Res;
    hide Red;
    hide Joint;
    hide Encodes;
    var hram, s := new u64[5], new u64[5];
    CheckScalars(hram, s, m, pk, rs);
    var r := new Ge();
    DoubleScalarmult(r, p, hram, s, table, q, b, region);
    checkR := new u8[32];
    Pack(checkR, r, Joint(Val(hram[..]), Val(s[..]), q, b));
    assert checkR[..32] == checkR[..];
  }

  /** ed25519_sign_open, true where the source returns 0. */
  method SignOpen(m: seq<u8>, pk: seq<u8>, rs: seq<u8>, table: seq<Niels>,
      ghost b: CurvePoint, ghost region: set<array<u64>>) returns (ok: bool)
    requires CurveLaws() && |pk| == 32 && |rs| == 64 && SlidingMultiples(table, b, region)
    ensures ok <==> Accepts(m, pk, rs, b)
  {
    hide CurveLaws;
    hide LE;
    hide IsFull;
    hide IsNielsEntry;
    hide OnCurve;
    hide Res;
    hide Red;
    hide Encodes;
    hide YOf;
    hide Checked;
    hide DecodesTo;
    hide Decodable;
    hide Accepts;
    hide And;
    TopBits(rs[32..]);
    if And(rs[63], 224) != 0 {
      TooLarge(m, pk, rs, b);
      return false;
    }
    var a := new Ge();
    var decoded := UnpackNegative(a, pk);
    if !decoded {
      AcceptedDecodes(m, pk, rs, b);
      return false;
    }
    ghost var q: Point := Point(Res(a.x[..]), YOf(pk));
    DecodedOnCurve(pk, q);
    var checkR := CheckBytes(m, pk, rs, a, table, q, b, region);
    ok := Verify(rs[..32], checkR[..]);
    Decision(m, pk, rs, q, checkR[..], b);
  }

  lemma TooLarge(m: seq<u8>, pk: seq<u8>, rs: seq<u8>, b: CurvePoint)
    requires |pk| == 32 && |rs| == 64 && LE(rs[32..]) >= TWO253
    ensures !Accepts(m, pk, rs, b)
  {
    hide LE;
  }

  lemma DecodedOnCurve(pk: seq<u8>, q: Point)
    requires |pk| == 32 && DecodesTo(pk, q)
    ensures OnCurve(q)
  {
    hide OnCurve;
    hide YOf;
  }

  lemma AcceptedDecodes(m: seq<u8>, pk: seq<u8>, rs: seq<u8>, b: CurvePoint)
    requires |pk| == 32 && |rs| == 64
    ensures Accepts(m, pk, rs, b) ==> Decodable(pk)
  {
    hide OnCurve;
    hide LE;
    hide Checked;
    hide Encodes;
    if Accepts(m, pk, rs, b) {
      assert Solves(m, pk, rs, b);
      var q: CurvePoint :| DecodesTo(pk, q) && Encodes(rs[..32], Checked(m, pk, rs, q, b));
      assert q == Point(q.x, YOf(pk));
    }
  }

  /** S is reduced after its range is tested: S and S + L are two signatures of one message, accepted alike. */
  lemma ShiftedResponseAccepted(m: seq<u8>, pk: seq<u8>, rs: seq<u8>, other: seq<u8>, b: CurvePoint)
    requires |pk| == 32 && |rs| == 64 && |other| == 64 && other[..32] == rs[..32]
    requires LE(other[32..]) == LE(rs[32..]) + L && LE(other[32..]) < TWO253
    ensures other != rs && (Accepts(m, pk, other, b) <==> Accepts(m, pk, rs, b))
  {
    hide LE;
    hide OnCurve;
    hide Joint;
    hide Encodes;
    hide DecodesTo;
    ModShift(LE(rs[32..]), L, 1);
    assert forall q: CurvePoint :: Checked(m, pk, other, q, b) == Checked(m, pk, rs, q, b);
    assert Solves(m, pk, other, b) <==> Solves(m, pk, rs, b);
  }

  /** Bytes encode at most one point. */
  lemma EncodedPointUnique(r: seq<u8>, x: CurvePoint, y: CurvePoint)
    requires CurveLaws() && Encodes(r, x) && Encodes(r, y)
    ensures x == y
  {
    hide CurveLaws;
    hide OnCurve;
    hide LE;
    hide YOf;
    hide SignOf;
    hide FSub;
    EncodedParts(r, x);
    EncodedParts(r, y);
    Coordinates(x);
    RootsAgreeFor(x, y);
    NegatedParity(x.x);
  }

  lemma CancelKey(h: nat, s: nat, t: nat, q: CurvePoint, b: CurvePoint)
    requires CurveLaws() && Joint(h, s, q, b) == Joint(h, t, q, b)
    ensures Times(s, b) == Times(t, b)
  {
    hide CurveLaws;
    hide IsAbelian;
    hide OnCurve;
    hide EdwardsGroup;
    hide Groups.Mul;
    GroupIsAbelian();
    var g := EdwardsGroup();
    Commute(g, Times(h, q), Times(s, b));
    Commute(g, Times(h, q), Times(t, b));
    Groups.Cancel(g, Times(s, b), Times(t, b), Times(h, q));
  }

  /** Two multiples below the order are different points. */
  lemma OrderFixes<T(!new)>(g: Group<T>, s: nat, t: nat, p: T, n: nat)
    requires IsAbelian(g) && HasOrder(g, p, n) && s <= t < n && Groups.Mul(g, s, p) == Groups.Mul(g, t, p)
    ensures s == t
  {
    hide IsAbelian;
    hide Groups.Mul;
    MulAdd(g, t - s, s, p);
    Identity(g, Groups.Mul(g, s, p));
    Groups.Cancel(g, Groups.Mul(g, t - s, p), g.zero, Groups.Mul(g, s, p));
  }

  lemma SameMultiples(s: nat, t: nat, b: CurvePoint)
    requires CurveLaws() && OfOrderL(b) && s < L && t < L && Times(s, b) == Times(t, b)
    ensures s == t
  {
    hide CurveLaws;
    hide IsAbelian;
    hide OnCurve;
    hide EdwardsGroup;
    hide HasOrder;
    hide Groups.Mul;
    GroupIsAbelian();
    assert HasOrder(EdwardsGroup(), b, L);
    if s <= t {
      OrderFixes(EdwardsGroup(), s, t, b, L);
    } else {
      OrderFixes(EdwardsGroup(), t, s, b, L);
    }
  }

  /**
   The accepted responses beside an accepted one, for a base point of order L: the numbers below 2^253 with its residue
   modulo L.
   */
  lemma AcceptedResponses(m: seq<u8>, pk: seq<u8>, rs: seq<u8>, other: seq<u8>, b: CurvePoint)
    requires CurveLaws() && OfOrderL(b)
    requires |pk| == 32 && |rs| == 64 && |other| == 64 && other[..32] == rs[..32] && Accepts(m, pk, rs, b)
    ensures Accepts(m, pk, other, b) <==> LE(other[32..]) < TWO253 && LE(other[32..]) % L == LE(rs[32..]) % L
  {
    hide CurveLaws;
    hide OnCurve;
    hide LE;
    hide Encodes;
    hide DecodesTo;
    hide Challenge;
    hide Joint;
    hide Times;
    hide OfOrderL;
    assert Solves(m, pk, rs, b);
    var p: CurvePoint :| DecodesTo(pk, p) && Encodes(rs[..32], Checked(m, pk, rs, p, b));
    if LE(other[32..]) % L == LE(rs[32..]) % L {
      assert Checked(m, pk, other, p, b) == Checked(m, pk, rs, p, b);
    }
    if Accepts(m, pk, other, b) {
      assert Solves(m, pk, other, b);
      var q: CurvePoint :| DecodesTo(pk, q) && Encodes(other[..32], Checked(m, pk, other, q, b));
      DecodesUnique(pk, p, q);
      EncodedPointUnique(rs[..32], Checked(m, pk, rs, p, b), Checked(m, pk, other, p, b));
      CancelKey(Challenge(rs[..32], pk, m), LE(rs[32..]) % L, LE(other[32..]) % L, p, b);
      SameMultiples(LE(rs[32..]) % L, LE(other[32..]) % L, b);
    }
  }

  /** An accepted response is the only one beside its R exactly when its residue modulo L, plus L, is 2^253 or more. */
  lemma UniqueResponse(m: seq<u8>, pk: seq<u8>, rs: seq<u8>, b: CurvePoint)
    requires CurveLaws() && OfOrderL(b)
    requires |pk| == 32 && |rs| == 64 && Accepts(m, pk, rs, b)
    ensures (forall other: seq<u8> ::
        |other| == 64 && other[..32] == rs[..32] && Accepts(m, pk, other, b) ==> other == rs)
            <==> LE(rs[32..]) % L + L >= TWO253
  {
    hide CurveLaws;
    hide OnCurve;
    hide OfOrderL;
    hide DecodesTo;
    hide Encodes;
    hide Checked;
    hide LE;
    var v := LE(rs[32..]);
    LEBound(rs[32..]);
    if v % L + L >= TWO253 {
      forall other: seq<u8> | |other| == 64 && other[..32] == rs[..32] && Accepts(m, pk, other, b)
        ensures other == rs
      {
        AcceptedResponses(m, pk, rs, other, b);
        LEBound(other[32..]);
        OneBelow(v, LE(other[32..]));
        FieldBytes.EncodingUnique(other[32..], rs[32..]);
        assert other == other[..32] + other[32..] && rs == rs[..32] + rs[32..];
      }
    } else {
      AnotherBelow(v);
      var w := if v >= L then v % L else v + L;
      var other := rs[..32] + LittleEndian(w, 32);
      Pow256Of31();
      LittleEndianValue(w, 32);
      assert other[..32] == rs[..32] && other[32..] == LittleEndian(w, 32);
      AcceptedResponses(m, pk, rs, other, b);
      assert other != rs;
    }
  }

  lemma OneBelow(v: nat, w: nat)
    requires v < TWO253 && w < TWO253 && v % L == w % L && v % L + L >= TWO253
    ensures v == w
  {
  }

  lemma AnotherBelow(v: nat)
    requires v < TWO253 && v % L + L < TWO253
    ensures var w := if v >= L then v % L else v + L; 0 <= w < TWO253 && w != v && w % L == v % L
  {
    ModShift(v, L, 1);
    DivModUnique(v % L, L, 0, v % L);
  }

  /** [h]q + c = [g]q + c leaves [h]q = [g]q. */
  lemma CancelBase(h: nat, g: nat, c: nat, q: CurvePoint, b: CurvePoint)
    requires CurveLaws() && Joint(h, c, q, b) == Joint(g, c, q, b)
    ensures Times(h, q) == Times(g, q)
  {
    hide CurveLaws;
    hide IsAbelian;
    hide OnCurve;
    hide EdwardsGroup;
    hide Groups.Mul;
    GroupIsAbelian();
    Groups.Cancel(EdwardsGroup(), Times(h, q), Times(g, q), Times(c, b));
  }

  /** A signature accepted for one message is accepted for another exactly when the hashes agree modulo L. */
  lemma MessageIsBound(m1: seq<u8>, m2: seq<u8>, pk: seq<u8>, rs: seq<u8>, q: CurvePoint, b: CurvePoint)
    requires CurveLaws() && |pk| == 32 && |rs| == 64
    requires DecodesTo(pk, q) && OfOrderL(q) && Accepts(m1, pk, rs, b)
    ensures Accepts(m2, pk, rs, b)
            <==> LE(Sha512.Digest(rs[..32] + pk + m1)) % L == LE(Sha512.Digest(rs[..32] + pk + m2)) % L
  {
    hide CurveLaws;
    hide OfOrderL;
    hide OnCurve;
    hide LE;
    hide Encodes;
    hide DecodesTo;
    hide Joint;
    hide Times;
    hide Sha512.Digest;
    assert Solves(m1, pk, rs, b);
    var p: CurvePoint :| DecodesTo(pk, p) && Encodes(rs[..32], Checked(m1, pk, rs, p, b));
    DecodesUnique(pk, p, q);
    var h1, h2 := Challenge(rs[..32], pk, m1), Challenge(rs[..32], pk, m2);
    if h1 == h2 {
      assert Solves(m2, pk, rs, b);
    }
    if Accepts(m2, pk, rs, b) {
      assert Solves(m2, pk, rs, b);
      var r: CurvePoint :| DecodesTo(pk, r) && Encodes(rs[..32], Checked(m2, pk, rs, r, b));
      DecodesUnique(pk, r, q);
      EncodedPointUnique(rs[..32], Checked(m1, pk, rs, q, b), Checked(m2, pk, rs, q, b));
      CancelBase(h1, h2, LE(rs[32..]) % L, q, b);
      SameMultiples(h1, h2, q);
    }
  }

  /** The comparison of bytes decides the equation. */
  lemma Decision(m: seq<u8>, pk: seq<u8>, rs: seq<u8>, q: CurvePoint, check: seq<u8>, b: CurvePoint)
    requires CurveLaws() && |pk| == 32 && |rs| == 64 && LE(rs[32..]) < TWO253 && DecodesTo(pk, q)
    requires Encodes(check, Checked(m, pk, rs, q, b))
    ensures rs[..32] == check <==> Accepts(m, pk, rs, b)
  {
    hide CurveLaws;
    hide OnCurve;
    hide LE;
    hide Checked;
    hide Encodes;
    hide DecodesTo;
    if Accepts(m, pk, rs, b) {
      assert Solves(m, pk, rs, b);
      var p: CurvePoint :| DecodesTo(pk, p) && Encodes(rs[..32], Checked(m, pk, rs, p, b));
      DecodesUnique(pk, p, q);
      EncodingOfPointUnique(rs[..32], check, Checked(m, pk, rs, q, b));
    }
  }

  // ---------- completeness ----------

  /** The negated point is what the bytes of a point decode to. */
  lemma NegatedDecodes(b: seq<u8>, a: CurvePoint)
    requires Encodes(b, a)
    ensures DecodesTo(b, ENeg(a))
  {
    EncodedParts(b, a);
    hide YOf;
    hide LE;
    NegatedParity(a.x);
    NegOnCurve(a);
    hide OnCurve;
  }

  /** [h](-[a]B) + [r + h a mod L]B = [r]B. */
  lemma Equation(h: nat, a: nat, r: nat, b: CurvePoint)
    requires CurveLaws() && OrderL(b)
    ensures Joint(h, (r + h * a) % L, ENeg(Times(a, b)), b) == Times(r, b)
  {
    hide CurveLaws;
    hide OrderL;
    hide ENeg;
    hide OnCurve;
    hide Times;
    hide Plus;
    TimesModL(r + h * a, b);
    NegTimes(a, b);
    var n: int := a;
    TimesTimes(h, -n, b);
    NegProduct(h, n);
    TimesPlus(-(h * a), r + h * a, b);
  }

  lemma NegProduct(h: int, a: int)
    ensures h * -a == -(h * a)
  {
  }

  lemma TimesTimes(n: nat, k: int, b: CurvePoint)
    requires CurveLaws()
    ensures Times(n, Times(k, b)) == Times(n * k, b)
  {
    hide CurveLaws;
    hide IsAbelian;
    hide EdwardsGroup;
    hide Groups.Mul;
    GroupIsAbelian();
    MulMul(EdwardsGroup(), n, k, b);
  }

  /** Every signature the signer makes under its own public key is accepted. */
  lemma SignatureAccepted(m: seq<u8>, sk: seq<u8>, pk: seq<u8>, rs: seq<u8>, b: CurvePoint)
    requires CurveLaws() && OrderL(b) && |pk| == 32
    requires Encodes(pk, Times(SecretScalar(sk), b)) && IsSignature(rs, m, sk, pk, b)
    ensures Accepts(m, pk, rs, b)
  {
    hide CurveLaws;
    hide OrderL;
    hide OnCurve;
    hide ENeg;
    hide Encodes;
    hide DecodesTo;
    hide SecretScalar;
    hide Challenge;
    hide Nonce;
    hide LE;
    hide Times;
    hide Joint;
    assert Signs(rs, m, sk, pk, b);
    var a, r, h := SecretScalar(sk), Nonce(sk, m), Challenge(rs[..32], pk, m);
    NegatedDecodes(pk, Times(a, b));
    Equation(h, a, r, b);
    SmallResidue(r + h * a);
    assert Checked(m, pk, rs, ENeg(Times(a, b)), b) == Times(r, b);
  }

  lemma SmallResidue(x: int)
    ensures 0 <= x % L < TWO253 && (x % L) % L == x % L
  {
    DivModUnique(x % L, L, 0, x % L);
  }
}
