/**
 curved25519_scalarmult_basepoint (ed25519.cpp): the base point multiplied on the Edwards curve, and the result's
 Montgomery coordinate u = (1 + y) / (1 - y).
 */
module Montgomery {
  import opened Numbers
  import opened Bytes
  import opened Scalars
  import opened ModmBytes
  import opened Field25519
  import opened FieldBytes
  import opened FieldChains
  import opened EdwardsLaw
  import opened EdwardsFormulas
  import opened ScalarMult
  import opened BaseMult
  import opened PointBytes
  import opened Signatures

  /** u (1 - y) = 1 + y; 0 where the quotient does not exist. */
  predicate IsMontgomery(u: int, y: int) {
    && 0 <= u < P
    && (y != 1 ==> FMul(u, FSub(1, y)) == FAdd(1, y))
    && (y == 1 ==> u == 0)
  }

  /** The clamped scalar in the bytes of a key. */
  ghost function ClampedBytes(e: seq<u8>): nat {
    LEBound(e);
    Clamped(LE(e))
  }

  /** It is the key, clamped. */
  lemma ClampedBytesIs(e: seq<u8>)
    ensures ClampedBytes(e) % 8 == 0
        && 0x4000_0000_0000_0000_0000_0000_0000_0000_0000_0000_0000_0000_0000_0000_0000_0000 <= ClampedBytes(e)
        < 0x8000_0000_0000_0000_0000_0000_0000_0000_0000_0000_0000_0000_0000_0000_0000_0000
    ensures (ClampedBytes(e) / 8) % 0x800_0000_0000_0000_0000_0000_0000_0000_0000_0000_0000_0000_0000_0000_0000_0000
        == (LE(e) / 8) % 0x800_0000_0000_0000_0000_0000_0000_0000_0000_0000_0000_0000_0000_0000_0000_0000
  {
    hide LE;
    hide Clamped;
    LEBound(e);
    ClampedIs(LE(e));
  }

  /** The clamped copy of the key. */
  method ClampCopy(e: seq<u8>) returns (ec: array<u8>)
    requires |e| == 32
    ensures fresh(ec) && ec.Length == 32 && LE(ec[..]) == ClampedBytes(e)
  {
    hide LE;
    hide And;
    hide Or;
    hide Clamped;
    ec := new u8[32];
    var i := 0;
    while i < 32
      invariant 0 <= i <= 32 && forall k :: 0 <= k < i ==> ec[k] == e[k]
    {
      ec[i] := e[i];
      i := i + 1;
    }
    LEBound(e);
    ByteMasks(e[0]);
    ByteMasks(e[31]);
    ec[0] := And(ec[0], 248);
    ec[31] := And(ec[31], 127);
    ec[31] := Or(ec[31], 64);
    assert ec[..][1..31] == e[1..31];
    ClampValue(e, ec[..]);
  }

  lemma ClampedBelow(v: nat)
    ensures Clamped(v) < TWO255
  {
  }

  /** curved25519_scalarmult_basepoint. */
  method CurveBasepoint(pk: array<u8>, e: seq<u8>, table: seq<seq<u8>>, ghost b: CurvePoint)
    requires CurveLaws() && BaseMultiples(table, b) && pk.Length == 32 && |e| == 32
    modifies pk
    ensures IsMontgomery(LE(pk[..]), Times(ClampedBytes(e), b).y)
  {
    hide CurveLaws;
    hide BaseMultiples;
    hide OnCurve;
    hide LE;
    hide Val;
    hide Clamped;
    hide Times;
    hide IsFull;
    hide IsPartial;
    hide IsMontgomery;
    hide Res;
    var ec := ClampCopy(e);
    var s := new u64[5];
    var p := new Ge();
    ExpandRaw256(s, ec[..]);
    LEBound(e);
    ClampedBelow(LE(e));
    ghost var q := Times(ClampedBytes(e), b);
    ScalarmultBase(p, table, s, b);
    FullIsPartial(p.Value(), q);
    Coordinate(pk, p, q);
  }

  /** u from the projective coordinates. */
  method Coordinate(pk: array<u8>, p: Ge, ghost q: CurvePoint)
    requires CurveLaws() && pk.Length == 32 && p.Shape() && p.PartialRed() && IsPartial(p.Value(), q)
    modifies pk
    ensures IsMontgomery(LE(pk[..]), q.y)
  {
    hide CurveLaws;
    hide OnCurve;
    hide LE;
    hide FMul;
    hide FPow;
    hide FAdd;
    hide FSub;
    hide Pow2;
    hide Res;
    hide IsMontgomery;
    hide IsPartial;
    var yplusz, zminusy := new u64[5], new u64[5];
    QuotientIs(p.Value(), q);
    Add(yplusz, p.y, p.z);
    Sub(zminusy, p.z, p.y);
    Recip(zminusy, zminusy);
    Field25519.Mul(yplusz, yplusz, zminusy);
    RedBelow(yplusz[..]);
    Contract(pk, 0, yplusz);
    assert pk[0..32] == pk[..];
  }

  lemma QuotientIs(c: Coords, q: CurvePoint)
    requires CurveLaws() && IsPartial(c, q)
    ensures Pow2(255) >= 32
    ensures IsMontgomery(FMul(FAdd(c.y, c.z), FPow(FSub(c.z, c.y), Pow2(255) - 21)), q.y)
  {
    hide CurveLaws;
    hide Pow2;
    hide FPow;
    hide FMul;
    var n := Exponent();
    FermatHolds();
    Dist(1, q.y, c.z);
    FMulOne(c.z);
    var s, d := FAdd(1, q.y), FSub(1, q.y);
    FAddCommute(c.y, c.z);
    var a, e := FMul(s, c.z), FMul(d, c.z);
    var i := FPow(e, n);
    ZeroDifference(1, q.y);
    hide OnCurve;
    if q.y == 1 {
      FMulZero(c.z);
      PowOfZero(n);
      FMulZero(a);
    } else {
      NonzeroProduct(d, c.z);
      RecipInverts(e);
      UndoneFactor(s, d, c.z, i);
    }
  }

  /** If (d z) i = 1 then ((s z) i) d = s. */
  lemma UndoneFactor(s: int, d: int, z: int, i: int)
    requires 0 <= s < P && FMul(FMul(d, z), i) == 1
    ensures FMul(FMul(FMul(s, z), i), d) == s
  {
    hide FMul;
    FMulAssoc(s, z, i);
    FMulAssoc(s, FMul(z, i), d);
    FMulCommute(FMul(z, i), d);
    FMulAssoc(d, z, i);
    FMulOne(s);
  }

  lemma Exponent() returns (n: nat)
    ensures Pow2(255) >= 32 && n == Pow2(255) - 21 && n > 0
  {
    Pow2Of256();
    n := Pow2(255) - 21;
  }

  lemma PowOfZero(n: nat)
    requires n > 0
    ensures FPow(0, n) == 0
  {
    FMulZero(FPow(0, n - 1));
    hide FMul;
  }
}
