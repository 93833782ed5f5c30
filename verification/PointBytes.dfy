/**
 Points to 32 bytes and back: ge25519_pack, ge25519_unpack_negative_vartime and the constant-time
 comparison ed25519_verify (sections 5.1.2 and 5.1.3 of RFC 8032; decoding gives the negated point).
 */
module PointBytes {
  import opened Numbers
  import opened Bytes
  import opened Field25519
  import opened FieldBytes
  import opened FieldChains
  import opened EdwardsLaw
  import opened EdwardsFormulas
  import opened SquareRoots

  // ---------- comparison ----------

  lemma {:induction false} OrNull(a: nat, b: nat)
    ensures Or(a, b) == 0 <==> a == 0 && b == 0
  {
    if a != 0 && b != 0 {
      OrNull(a / 2, b / 2);
    }
  }

  /** ed25519_verify: whether two byte strings are equal, every byte looked at. */
  method Verify(x: seq<u8>, y: seq<u8>) returns (same: bool)
    requires |x| == |y|
    ensures same <==> x == y
  {
    hide Or;
    hide Xor;
    hide Pow2;
    Pow2Bytes();
    var differentbits: u64 := 0;
    var i := 0;
    while i < |x|
      invariant 0 <= i <= |x| && differentbits < 0x100
      invariant differentbits == 0 <==> forall k :: 0 <= k < i ==> x[k] == y[k]
    {
      BitBounds(x[i], y[i], 8);
      XorNull(x[i], y[i]);
      OrNull(differentbits, Xor(x[i], y[i]));
      BitBounds(differentbits, Xor(x[i], y[i]), 8);
      differentbits := Or(differentbits, Xor(x[i], y[i]));
      i := i + 1;
    }
    same := (((differentbits + (0x1_0000_0000_0000_0000 - 1)) % 0x1_0000_0000_0000_0000) / 0x100) % 2 == 1;
  }

  // ---------- what the bytes say ----------

  /** The y coordinate in 255 bits, reduced: encodings of y + p are taken too. */
  function YOf(b: seq<u8>): (y: int)
    requires |b| == 32
    ensures 0 <= y < P
  {
    Mod(LE(b) % 0x8000_0000_0000_0000_0000_0000_0000_0000_0000_0000_0000_0000_0000_0000_0000_0000)
  }

  /** The top bit. */
  function SignOf(b: seq<u8>): (s: int)
    requires |b| == 32
    ensures s == 0 || s == 1
  {
    b[31] / 0x80
  }

  /** The encoding of a point: y with the parity of x in the top bit. */
  predicate Encodes(b: seq<u8>, p: Point) {
    |b| == 32 && LE(b) == p.y
        + 0x8000_0000_0000_0000_0000_0000_0000_0000_0000_0000_0000_0000_0000_0000_0000_0000 * (p.x % 2)
  }

  /** Two encodings of one point are the same bytes. */
  lemma EncodingOfPointUnique(a: seq<u8>, b: seq<u8>, p: Point)
    requires Encodes(a, p) && Encodes(b, p)
    ensures a == b
  {
    EncodingUnique(a, b);
  }

  lemma TopByte(b: seq<u8>)
    requires |b| == 32
    ensures LE(b) == LE(b[..31])
        + 0x100_0000_0000_0000_0000_0000_0000_0000_0000_0000_0000_0000_0000_0000_0000_0000 * (b[31] as int)
        && 0 <= LE(b[..31]) < 0x100_0000_0000_0000_0000_0000_0000_0000_0000_0000_0000_0000_0000_0000_0000_0000
  {
    EvalSplit(0x100, b, 31);
    EvalOne(0x100, b[31]);
    assert b[31..] == [b[31]];
    EvalBound(0x100, b[..31]);
    Pow256Of31();
  }

  lemma EncodedParts(b: seq<u8>, p: CurvePoint)
    requires Encodes(b, p)
    ensures YOf(b) == p.y && SignOf(b) == p.x % 2
  {
    TopByte(b);
    hide LE;
    assert 0 <= p.y < P;
    var s := p.x % 2;
    DivModUnique(LE(b), 0x8000_0000_0000_0000_0000_0000_0000_0000_0000_0000_0000_0000_0000_0000_0000_0000, s, p.y);
    assert LE(b) / 0x8000_0000_0000_0000_0000_0000_0000_0000_0000_0000_0000_0000_0000_0000_0000_0000
        == (b[31] as int) / 0x80 by {
      var low := LE(b[..31])
          + 0x100_0000_0000_0000_0000_0000_0000_0000_0000_0000_0000_0000_0000_0000_0000_0000 * ((b[31] as int) % 0x80);
      DivModUnique(LE(b), 0x8000_0000_0000_0000_0000_0000_0000_0000_0000_0000_0000_0000_0000_0000_0000_0000,
          (b[31] as int) / 0x80, low);
    }
  }

  // ---------- pack ----------

  lemma Affine(x: int, z: int, c: int)
    requires CurveLaws() && 0 <= x < P && 0 < z < P && c == FMul(x, z)
    ensures Pow2(255) >= 32 && FMul(c, FPow(z, Pow2(255) - 21)) == x
  {
    hide CurveLaws;
    hide FMul;
    hide FPow;
    hide Pow2;
    FermatHolds();
    RecipInverts(z);
    var i := FPow(z, Pow2(255) - 21);
    FMulAssoc(x, z, i);
    FMulOne(x);
  }

  lemma FermatHolds()
    requires CurveLaws()
    ensures Fermat()
  {
    hide NoZeroDivisors;
    hide Complete;
    hide Fermat;
  }

  lemma XorStep(x: nat, p: nat)
    ensures Xor(x, 2 * p) == 2 * Xor(x / 2, p) + x % 2
  {
    BitSteps(x, 2 * p);
  }

  lemma {:induction false} XorTop(x: nat, k: nat)
    requires x < Pow2(k)
    ensures Xor(x, Pow2(k)) == x + Pow2(k)
  {
    if k > 0 {
      XorTop(x / 2, k - 1);
      XorStep(x, Pow2(k - 1));
      hide Xor;
    }
  }

  /** `r[31] ^= (parity & 1) << 7` sets the free top bit. */
  lemma SetTopBit(s: seq<u8>, parity: nat)
    requires |s| == 32 && LE(s) < TWO255 && parity <= 1
    ensures s[31] < 0x80 && Xor(s[31], parity * 0x80) == s[31] + parity * 0x80
    ensures LE(s[31 := s[31] + parity * 0x80])
        == LE(s) + 0x8000_0000_0000_0000_0000_0000_0000_0000_0000_0000_0000_0000_0000_0000_0000_0000 * parity
  {
    TopByte(s);
    EvalUpdate(0x100, s, 31, s[31] + parity * 0x80);
    hide LE;
    hide Eval;
    Pow256Of31();
    hide Pow;
    XorParity(s[31], parity);
  }

  lemma XorParity(x: nat, parity: nat)
    requires x < 0x80 && parity <= 1
    ensures Xor(x, parity * 0x80) == x + parity * 0x80
  {
    assert Pow2(7) == 0x80;
    XorTop(x, 7);
    assert Xor(x, 0) == x;
  }

  lemma LEParity(b: seq<u8>)
    requires |b| == 32
    ensures LE(b) % 2 == b[0] % 2
  {
    var rest := Eval(0x100, b[1..]);
    assert LE(b) == b[0] + 0x100 * rest;
    hide LE;
    hide Eval;
    DivModUnique(LE(b), 2, b[0] / 2 + 0x80 * rest, b[0] % 2);
  }

  /** The affine coordinates from projective ones: x = X z^-1, y = Y z^-1. */
  method ToAffine(tx: array<u64>, ty: array<u64>, p: Ge, ghost q: CurvePoint)
    requires CurveLaws() && p.Shape() && p.PartialRed() && IsPartial(p.Value(), q)
    requires tx.Length == 5 && ty.Length == 5 && tx != ty && tx !in p.Repr() && ty !in p.Repr()
    modifies tx, ty
    ensures Red(tx[..]) && Red(ty[..]) && Res(tx[..]) == q.x && Res(ty[..]) == q.y
  {
    hide CurveLaws;
    hide Res;
    hide Red;
    hide FMul;
    hide FPow;
    hide Pow2;
    Affine(q.x, Res(p.z[..]), Res(p.x[..]));
    Affine(q.y, Res(p.z[..]), Res(p.y[..]));
    hide OnCurve;
    var zi := new u64[5];
    Recip(zi, p.z);
    Mul(tx, p.x, zi);
    Mul(ty, p.y, zi);
  }

  /** ge25519_pack. */
  method Pack(r: array<u8>, p: Ge, ghost q: CurvePoint)
    requires CurveLaws() && p.Shape() && p.PartialRed() && IsPartial(p.Value(), q) && r.Length >= 32
    modifies r
    ensures Encodes(r[..32], q) && r[32..] == old(r[32..])
  {
    hide CurveLaws;
    hide IsPartial;
    hide Res;
    hide LE;
    hide Xor;
    hide FieldChains.Ones;
    var tx, ty, parity := new u64[5], new u64[5], new u8[32];
    ToAffine(tx, ty, p, q);
    RedBelow(tx[..]);
    RedBelow(ty[..]);
    hide Red;
    hide Below;
    Coordinates(q);
    hide OnCurve;
    Contract(r, 0, ty);
    Contract(parity, 0, tx);
    assert r[0..32] == r[..32] && parity[0..32] == parity[..];
    LEParity(parity[..]);
    ghost var s: seq<u8> := r[..32];
    SetTopBit(s, parity[0] % 2);
    r[31] := Xor(r[31], (parity[0] % 2) * 0x80);
    assert r[..32] == s[31 := s[31] + (parity[0] % 2) * 0x80];
  }

  lemma RedBelow(s: seq<int>)
    requires |s| == 5 && Red(s)
    ensures Below(s, 0x8000_0000_0000_0000)
  {
  }

  lemma Coordinates(q: CurvePoint)
    ensures 0 <= q.x < P && 0 <= q.y < P
  {
  }

  // ---------- unpack ----------

  /** What decoding promises of its point: on the curve, with the encoded y, and x negated. */
  ghost predicate DecodesTo(b: seq<u8>, q: Point)
    requires |b| == 32
  {
    && OnCurve(q) && q.y == YOf(b)
    && (q.x % 2 != SignOf(b) || q.x == 0)
  }

  /** Some point has the encoded y. */
  ghost predicate Decodable(b: seq<u8>)
    requires |b| == 32
  {
    exists x: int :: OnCurve(Point(x, YOf(b)))
  }

  /** `check` compared with zero: the residue is zero. */
  method IsZeroResidue(a: array<u64>) returns (zero: bool)
    requires a.Length == 5 && Red(a[..])
    ensures zero <==> Res(a[..]) == 0
  {
    hide Res;
    hide LE;
    var check := new u8[32];
    RedBelow(a[..]);
    Contract(check, 0, a);
    assert check[0..32] == check[..];
    var zeros: seq<u8> := seq(32, i => 0);
    ZerosLE(zeros);
    zero := Verify(check[..], zeros);
    if LE(check[..]) == 0 {
      EncodingUnique(check[..], zeros);
    }
  }

  lemma ZerosLE(z: seq<u8>)
    requires forall i :: 0 <= i < |z| ==> z[i] == 0
    ensures LE(z) == 0
  {
    EvalZeros(0x100, z);
  }

  /** y, z = 1, y^2 - 1 and d y^2 + 1. */
  method Fraction(r: Ge, num: array<u64>, den: array<u64>, p: seq<u8>)
    requires r.Shape() && |p| == 32 && num.Length == 5 && den.Length == 5 && num != den
    requires num !in r.Repr() && den !in r.Repr()
    modifies r.y, r.z, num, den
    ensures Red(r.y[..]) && Red(r.z[..]) && Res(r.y[..]) == YOf(p) && Res(r.z[..]) == 1
    ensures Red(num[..]) && Res(num[..]) == Numerator(YOf(p))
    ensures Loose(den[..]) && Res(den[..]) == Denominator(YOf(p))
  {
    hide LE;
    hide FMul;
    hide FSub;
    hide FAdd;
    hide FV;
    var ecd := Ecd();
    Expand(r.y, p);
    r.z[0], r.z[1], r.z[2], r.z[3], r.z[4] := 1, 0, 0, 0, 0;
    OneIs(r.z[..]);
    hide Res;
    hide Red;
    hide Below;
    Square(num, r.y);
    Mul(den, num, ecd);
    SubReduce(num, num, r.z);
    Add(den, den, r.z);
  }

  lemma OneIs(s: seq<int>)
    requires s == [1, 0, 0, 0, 0]
    ensures Red(s) && Res(s) == 1
  {
  }

  /** The candidate root in `x`. */
  method CandidateRoot(x: array<u64>, num: array<u64>, den: array<u64>)
    requires x.Length == 5 && num.Length == 5 && den.Length == 5 && x != num && x != den && num != den
    requires Red(num[..]) && Loose(den[..])
    modifies x
    ensures Red(x[..]) && Res(x[..]) == Candidate(Res(num[..]), Res(den[..]))
  {
    hide Res;
    hide Red;
    hide FMul;
    hide FPow;
    hide Pow2;
    RootExponentIs();
    var t, d3 := new u64[5], new u64[5];
    Square(t, den);
    Mul(d3, t, den);
    Square(x, d3);
    Mul(x, x, den);
    Mul(x, x, num);
    PowTwo252m3(x, x);
    Mul(x, x, d3);
    Mul(x, x, num);
  }

  lemma RootExponentIs()
    ensures Pow2(252) - 3 == ROOT_EXPONENT
  {
    Pow2Of256();
    assert Pow2(255) == 2 * (2 * (2 * Pow2(252)));
  }

  /** Keep the candidate, turn it by sqrt(-1), or give up. */
  method CheckRoot(x: array<u64>, num: array<u64>, den: array<u64>) returns (ok: bool)
    requires x.Length == 5 && num.Length == 5 && den.Length == 5 && x != num && x != den && num != den
    requires Red(x[..]) && Red(num[..]) && Loose(den[..])
    modifies x
    ensures Red(x[..])
    ensures ok ==> IsRoot(Res(x[..]), Res(num[..]), Res(den[..]))
    ensures ok <==> old(FMul(FMul(Res(x[..]), Res(x[..])), Res(den[..])) in {Res(num[..]), FSub(0, Res(num[..]))})
  {
    hide Res;
    hide Red;
    hide FMul;
    hide FPow;
    var t, root := new u64[5], new u64[5];
    ghost var c, u, v := Res(x[..]), Res(num[..]), Res(den[..]);
    Square(t, x);
    Mul(t, t, den);
    SubReduce(root, t, num);
    ZeroDifference(Res(t[..]), u);
    var first := IsZeroResidue(root);
    if !first {
      AddReduce(t, t, num);
      var second := IsZeroResidue(t);
      if !second {
        return false;
      }
      TurnedRoot(c, u, v);
      var sqrtneg1 := SqrtNeg1();
      Mul(x, x, sqrtneg1);
    }
    ok := true;
  }

  /** ge25519_sqrtneg1. */
  method SqrtNeg1() returns (r: array<u64>)
    ensures fresh(r) && r.Length == 5 && Red(r[..]) && Res(r[..]) == SQRT_OF_MINUS1
  {
    r := new u64[5] [0x61b274a0ea0b0, 0xd5a5fc8f189d, 0x7ef5e9cbd0c60, 0x78595a6804c9e, 0x2b8324804fc1d];
  }

  /** x negated when its parity is the encoded one. */
  method FixParity(x: array<u64>, parity: int)
    requires x.Length == 5 && Red(x[..]) && (parity == 0 || parity == 1)
    modifies x
    ensures Red(x[..])
    ensures Res(x[..]) == old(Res(x[..])) || Res(x[..]) == FSub(0, old(Res(x[..])))
    ensures Res(x[..]) % 2 != parity || Res(x[..]) == 0
  {
    hide Res;
    hide LE;
    var check := new u8[32];
    RedBelow(x[..]);
    Contract(check, 0, x);
    hide Red;
    assert check[0..32] == check[..];
    LEParity(check[..]);
    if check[0] % 2 == parity {
      var t := new u64[5];
      NegatedParity(Res(x[..]));
      Copy(t, x);
      Neg(x, t);
    }
  }

  lemma NegatedParity(x: int)
    requires 0 <= x < P
    ensures x != 0 ==> FSub(0, x) != 0 && FSub(0, x) % 2 != x % 2
    ensures x == 0 ==> FSub(0, x) == 0
  {
    var k := Split(0 - x);
    hide Mod;
  }

  /** ge25519_unpack_negative_vartime: succeeds exactly when some point has the encoded y. */
  method UnpackNegative(r: Ge, p: seq<u8>) returns (ok: bool)
    requires CurveLaws() && r.Shape() && |p| == 32
    modifies r.x, r.y, r.z, r.t
    ensures ok <==> Decodable(p)
    ensures ok ==> DecodesTo(p, Point(Res(r.x[..]), YOf(p)))
    ensures ok ==> r.AllRed() && IsFull(r.Value(), Point(Res(r.x[..]), YOf(p))) && Res(r.z[..]) == 1
  {
    hide CurveLaws;
    hide OnCurve;
    hide IsFull;
    hide IsRoot;
    hide Res;
    hide Red;
    hide FMul;
    hide FSub;
    hide Candidate;
    hide Numerator;
    hide Denominator;
    hide LE;
    hide Decodable;
    var parity := p[31] / 0x80;
    ghost var y := YOf(p);
    hide YOf;
    var num, den := new u64[5], new u64[5];
    Fraction(r, num, den, p);
    ghost var u, v := Res(num[..]), Res(den[..]);
    CandidateRoot(r.x, num, den);
    Completeness(p);
    ok := CheckRoot(r.x, num, den);
    if !ok {
      return;
    }
    ghost var x := Res(r.x[..]);
    FixParity(r.x, parity);
    NegatedRoot(x, u, v);
    RootDecodes(p, Res(r.x[..]));
    Mul(r.t, r.x, r.y);
    FullFromAffine(r.Value());
  }

  /** A decodable y passes one of the two checks, and only such a y does. */
  lemma Completeness(p: seq<u8>)
    requires CurveLaws() && |p| == 32
    ensures var u, v := Numerator(YOf(p)), Denominator(YOf(p));
      var c := Candidate(u, v);
      Decodable(p) <==> FMul(FMul(c, c), v) in {u, FSub(0, u)}
  {
    hide CurveLaws;
    hide Candidate;
    hide YOf;
    var y := YOf(p);
    var u, v := Numerator(y), Denominator(y);
    if Decodable(p) {
      var x :| OnCurve(Point(x, y));
      CurveIsRoot(x, y);
      hide OnCurve;
      CandidateWorks(x, u, v);
    } else {
      var c := Candidate(u, v);
      if FMul(FMul(c, c), v) == u {
        CurveIsRoot(c, y);
      } else if FMul(FMul(c, c), v) == FSub(0, u) {
        TurnedRoot(c, u, v);
        CurveIsRoot(FMul(c, SQRT_OF_MINUS1), y);
      }
    }
  }

  lemma RootDecodes(p: seq<u8>, x: int)
    requires |p| == 32 && 0 <= x < P && IsRoot(x, Numerator(YOf(p)), Denominator(YOf(p)))
    requires x % 2 != SignOf(p) || x == 0
    ensures DecodesTo(p, Point(x, YOf(p)))
  {
    hide YOf;
    CurveIsRoot(x, YOf(p));
  }

  lemma FullFromAffine(c: Coords)
    requires 0 <= c.x < P && 0 <= c.y < P && c.z == 1 && c.t == FMul(c.x, c.y)
    ensures IsFull(c, Point(c.x, c.y))
  {
    FMulOne(c.x);
    FMulOne(c.y);
    FMulOne(c.t);
  }

  /** Round trip: the bytes of a point decode to its negative. */
  lemma DecodeOfEncode(b: seq<u8>, a: CurvePoint, q: Point)
    requires CurveLaws() && Encodes(b, a) && DecodesTo(b, q)
    ensures Decodable(b) && q == ENeg(a)
  {
    hide CurveLaws;
    EncodedParts(b, a);
    assert Point(a.x, a.y) == a;
    assert Point(q.x, q.y) == q;
    RootsAgree(a.x, q.x, a.y);
    NegatedParity(a.x);
    hide OnCurve;
  }

}
