/**
 The one equation a batch of signatures is checked by (ed25519_sign_open_batch): the scalars and points the code puts in
 its heap, their sum, and what it says of the signatures.
 */
module BatchEquation {
  import opened Numbers
  import opened Bytes
  import opened Scalars
  import opened Groups
  import opened BosCarter
  import opened Modm
  import opened ModmBytes
  import opened EdwardsLaw
  import opened EdwardsFormulas
  import opened ScalarMult
  import opened BaseMult
  import opened PointBytes
  import opened Signatures
  import BatchVerify
  import Field25519
  import FieldBytes

  datatype Entry = Entry(m: seq<u8>, pk: seq<u8>, rs: seq<u8>)

  predicate Sized(e: Entry) {
    |e.pk| == 32 && |e.rs| == 64
  }

  // ---------- the equation ----------

  /** One signature of a batch: multiplier z, challenge h, response s, and the decoded -A and -R. */
  datatype Share = Share(z: nat, h: nat, s: nat, a: CurvePoint, r: CurvePoint)

  /** [h](-A) + [s]B - R, the identity for a good signature. */
  ghost function Defect(e: Share, b: CurvePoint): CurvePoint {
    Plus(Joint(e.h, e.s, e.a, b), e.r)
  }

  /** The sum of z s over the batch. */
  function Responses(t: seq<Share>): nat {
    if |t| == 0 then 0 else NatSum(Responses(t[..|t| - 1]), t[|t| - 1].z, t[|t| - 1].s)
  }

  function NatSum(x: nat, z: nat, s: nat): nat {
    Product(z, s);
    x + z * s
  }

  lemma Product(z: nat, s: nat)
    ensures z * s >= 0
  {
  }

  /** What the key of a signature is multiplied by before the reduction. */
  function Weight(e: Share): nat {
    Product(e.z, e.h);
    e.z * e.h
  }

  /** scalars[0], scalars[1..n], scalars[n + 1..]. */
  ghost function BatchKeys(t: seq<Share>): (k: seq<int>)
    ensures |k| == 2 * |t| + 1
  {
    [Responses(t) % L] + seq(|t|, i requires 0 <= i < |t| => Weight(t[i]) % L)
    + seq(|t|, i requires 0 <= i < |t| => t[i].z)
  }

  /** The base point, the keys and the commitments. */
  ghost function BatchPoints(t: seq<Share>, b: CurvePoint): (p: seq<CurvePoint>)
    ensures |p| == 2 * |t| + 1
  {
    [b] + seq(|t|, i requires 0 <= i < |t| => t[i].a) + seq(|t|, i requires 0 <= i < |t| => t[i].r)
  }

  ghost function BatchSum(t: seq<Share>, b: CurvePoint): CurvePoint {
    Total(EdwardsGroup(), BatchKeys(t), BatchPoints(t, b), 2 * |t| + 1)
  }

  /** The defects, each multiplied by its z, added up. */
  ghost function DefectSum(t: seq<Share>, b: CurvePoint): CurvePoint {
    if |t| == 0 then Times(0, b)
    else Plus(DefectSum(t[..|t| - 1], b), Times(t[|t| - 1].z, Defect(t[|t| - 1], b)))
  }

  /** The three parts of the sum, unreduced. */
  ghost function KeyPart(t: seq<Share>, b: CurvePoint): CurvePoint {
    if |t| == 0 then Times(0, b)
    else Plus(KeyPart(t[..|t| - 1], b), Times(Weight(t[|t| - 1]), t[|t| - 1].a))
  }

  ghost function CommitPart(t: seq<Share>, b: CurvePoint): CurvePoint {
    if |t| == 0 then Times(0, b)
    else Plus(CommitPart(t[..|t| - 1], b), Times(t[|t| - 1].z, t[|t| - 1].r))
  }

  // ---------- group steps ----------

  lemma ZeroPoint(b: CurvePoint)
    requires CurveLaws()
    ensures Times(0, b) == EdwardsGroup().zero == Point(0, 1)
  {
    hide CurveLaws;
    hide IsAbelian;
    ZeroIs();
  }

  lemma Regroup(a: CurvePoint, b: CurvePoint, c: CurvePoint, d: CurvePoint)
    requires CurveLaws()
    ensures Plus(Plus(a, b), Plus(c, d)) == Plus(Plus(a, c), Plus(b, d))
  {
    hide CurveLaws;
    hide IsAbelian;
    hide EdwardsGroup;
    GroupIsAbelian();
    Swap4(EdwardsGroup(), a, b, c, d);
  }

  lemma TimesOfPlus(n: nat, p: CurvePoint, q: CurvePoint)
    requires CurveLaws()
    ensures Times(n, Plus(p, q)) == Plus(Times(n, p), Times(n, q))
  {
    hide CurveLaws;
    hide IsAbelian;
    hide EdwardsGroup;
    GroupIsAbelian();
    MulPlus(EdwardsGroup(), n, p, q);
  }

  /** [z]([h]a + [s]b + r) = [zh]a + [zs]b + [z]r. */
  lemma TimesDefect(e: Share, b: CurvePoint)
    requires CurveLaws()
    ensures e.z * e.s >= 0
    ensures Times(e.z, Defect(e, b)) == Plus(Plus(Times(Weight(e), e.a), Times(e.z * e.s, b)), Times(e.z, e.r))
  {
    hide CurveLaws;
    hide OnCurve;
    hide Plus;
    hide Times;
    Product(e.z, e.h);
    Product(e.z, e.s);
    TimesOfPlus(e.z, Joint(e.h, e.s, e.a, b), e.r);
    TimesOfPlus(e.z, Times(e.h, e.a), Times(e.s, b));
    TimesTimes(e.z, e.h, e.a);
    TimesTimes(e.z, e.s, b);
  }

  /** The parts add up to the multiplied defects. */
  lemma {:induction false} PartsAreDefects(t: seq<Share>, b: CurvePoint)
    requires CurveLaws()
    ensures Plus(Plus(KeyPart(t, b), Times(Responses(t), b)), CommitPart(t, b)) == DefectSum(t, b)
  {
    hide CurveLaws;
    hide OnCurve;
    hide Plus;
    hide Times;
    hide Defect;
    if |t| == 0 {
      PlusZero(Times(0, b), b);
    } else {
      var s, e := t[..|t| - 1], t[|t| - 1];
      PartsAreDefects(s, b);
      TimesDefect(e, b);
      TimesPlus(Responses(s), e.z * e.s, b);
      var k, x, c := KeyPart(s, b), Times(Responses(s), b), CommitPart(s, b);
      var k1, x1, c1 := Times(Weight(e), e.a), Times(e.z * e.s, b), Times(e.z, e.r);
      Regroup(k, k1, x, x1);
      Regroup(Plus(k, x), Plus(k1, x1), c, c1);
    }
  }

  // ---------- the sum as the terms the code adds ----------

  ghost function KeyTerms(t: seq<Share>): (s: seq<CurvePoint>)
    ensures |s| == |t|
  {
    seq(|t|, i requires 0 <= i < |t| => Times(Weight(t[i]) % L, t[i].a))
  }

  ghost function CommitTerms(t: seq<Share>): (s: seq<CurvePoint>)
    ensures |s| == |t|
  {
    seq(|t|, i requires 0 <= i < |t| => Times(t[i].z, t[i].r))
  }

  /** What reducing the weights modulo L leaves out of the sum: multiples of [L](-A). */
  ghost function GapPart(t: seq<Share>, b: CurvePoint): CurvePoint {
    if |t| == 0 then Times(0, b)
    else Plus(GapPart(t[..|t| - 1], b), Times(Weight(t[|t| - 1]) / L, Times(L, t[|t| - 1].a)))
  }

  /** [n mod L]a + [n / L][L]a = [n]a. */
  lemma TimesSplit(n: nat, a: CurvePoint)
    requires CurveLaws()
    ensures Plus(Times(n % L, a), Times(n / L, Times(L, a))) == Times(n, a)
  {
    hide CurveLaws;
    hide OnCurve;
    hide Plus;
    hide Times;
    TimesTimes(n / L, L, a);
    TimesPlus(n % L, (n / L) * L, a);
  }

  lemma LastKeyTerm(t: seq<Share>)
    requires |t| > 0
    ensures var s, e := t[..|t| - 1], t[|t| - 1];
      Sum(EdwardsGroup(), KeyTerms(t)) == Plus(Sum(EdwardsGroup(), KeyTerms(s)), Times(Weight(e) % L, e.a))
  {
    hide OnCurve;
    hide Times;
    hide Weight;
    assert KeyTerms(t)[..|t| - 1] == KeyTerms(t[..|t| - 1]);
  }

  lemma {:induction false} KeyTermsSum(t: seq<Share>, b: CurvePoint)
    requires CurveLaws()
    ensures Plus(Sum(EdwardsGroup(), KeyTerms(t)), GapPart(t, b)) == KeyPart(t, b)
  {
    hide CurveLaws;
    hide OnCurve;
    hide Plus;
    hide Times;
    hide Weight;
    hide EdwardsGroup;
    hide KeyTerms;
    if |t| == 0 {
      NoKeyTerms(t, b);
      PlusZero(Times(0, b), b);
    } else {
      var s, e := t[..|t| - 1], t[|t| - 1];
      KeyTermsSum(s, b);
      LastKeyTerm(t);
      hide Sum;
      TimesSplit(Weight(e), e.a);
      var x, y := Times(Weight(e) % L, e.a), Times(Weight(e) / L, Times(L, e.a));
      Regroup(Sum(EdwardsGroup(), KeyTerms(s)), x, GapPart(s, b), y);
    }
  }

  lemma NoKeyTerms(t: seq<Share>, b: CurvePoint)
    requires CurveLaws() && |t| == 0
    ensures Sum(EdwardsGroup(), KeyTerms(t)) == Times(0, b)
  {
    hide CurveLaws;
    hide OnCurve;
    hide Times;
    ZeroPoint(b);
  }

  /** Keys of order L. */
  ghost predicate KeysOfOrderL(t: seq<Share>) {
    forall i :: 0 <= i < |t| ==> OrderL(t[i].a)
  }

  /** For such keys the reduction leaves nothing out. */
  lemma {:induction false} NoGap(t: seq<Share>, b: CurvePoint)
    requires CurveLaws() && KeysOfOrderL(t)
    ensures GapPart(t, b) == Point(0, 1)
  {
    hide CurveLaws;
    hide OrderL;
    hide OnCurve;
    hide Plus;
    hide Times;
    hide Weight;
    ZeroPoint(b);
    hide EdwardsGroup;
    if |t| > 0 {
      var e := t[|t| - 1];
      NoGap(t[..|t| - 1], b);
      assert Times(L, e.a) == Point(0, 1) by {
        OrderLSays(e.a);
      }
      ZeroTimes(Weight(e) / L, b);
      PlusZero(Times(0, b), b);
    }
  }

  lemma OrderLSays(p: CurvePoint)
    requires OrderL(p)
    ensures Times(L, p) == Point(0, 1)
  {
    hide OnCurve;
    hide Times;
  }

  lemma {:induction false} CommitTermsSum(t: seq<Share>, b: CurvePoint)
    requires CurveLaws()
    ensures Sum(EdwardsGroup(), CommitTerms(t)) == CommitPart(t, b)
  {
    hide CurveLaws;
    hide OnCurve;
    hide Times;
    ZeroPoint(b);
    hide EdwardsGroup;
    if |t| > 0 {
      var s := t[..|t| - 1];
      CommitTermsSum(s, b);
      assert CommitTerms(t)[..|t| - 1] == CommitTerms(s);
    }
  }

  lemma TermsAre(t: seq<Share>, b: CurvePoint)
    ensures Terms(EdwardsGroup(), BatchKeys(t), BatchPoints(t, b), 2 * |t| + 1)
            == [Times(Responses(t) % L, b)] + KeyTerms(t) + CommitTerms(t)
  {
    hide EdwardsGroup;
    hide OnCurve;
    hide Groups.Mul;
    hide Responses;
    hide BatchKeys;
    hide BatchPoints;
    hide KeyTerms;
    hide CommitTerms;
    var n := |t|;
    var l := Terms(EdwardsGroup(), BatchKeys(t), BatchPoints(t, b), 2 * n + 1);
    var r := [Times(Responses(t) % L, b)] + KeyTerms(t) + CommitTerms(t);
    forall i | 0 <= i < 2 * n + 1
      ensures l[i] == r[i]
    {
      EntryAt(t, b, i);
    }
  }

  lemma EntryAt(t: seq<Share>, b: CurvePoint, i: nat)
    requires i < 2 * |t| + 1
    ensures Times(BatchKeys(t)[i], BatchPoints(t, b)[i])
            == ([Times(Responses(t) % L, b)] + KeyTerms(t) + CommitTerms(t))[i]
  {
    hide OnCurve;
    hide Times;
    hide Responses;
  }

  lemma SumParts(s: seq<CurvePoint>, t: seq<CurvePoint>, u: seq<CurvePoint>)
    requires CurveLaws()
    ensures var g := EdwardsGroup(); Sum(g, s + t + u) == Plus(Plus(Sum(g, s), Sum(g, t)), Sum(g, u))
  {
    hide CurveLaws;
    hide OnCurve;
    hide IsAbelian;
    hide EdwardsGroup;
    GroupIsAbelian();
    SumAppend(EdwardsGroup(), s + t, u);
    SumAppend(EdwardsGroup(), s, t);
  }

  /** The batch sum and the part left out of it are together the defects, each times its random multiplier. */
  lemma BatchSumGap(t: seq<Share>, b: CurvePoint)
    requires CurveLaws() && OrderL(b)
    ensures Plus(BatchSum(t, b), GapPart(t, b)) == DefectSum(t, b)
  {
    hide CurveLaws;
    hide OrderL;
    hide OnCurve;
    hide Times;
    hide EdwardsGroup;
    hide DefectSum;
    hide GapPart;
    hide KeyPart;
    hide CommitPart;
    hide Plus;
    SumOfTerms(t, b);
    var k, first, c := Sum(EdwardsGroup(), KeyTerms(t)), Times(Responses(t), b), CommitPart(t, b);
    KeyTermsSum(t, b);
    MoveIn(first, k, c, GapPart(t, b));
    PartsAreDefects(t, b);
  }

  /** ((f + k) + c) + g = ((k + g) + f) + c. */
  lemma MoveIn(f: CurvePoint, k: CurvePoint, c: CurvePoint, g: CurvePoint)
    requires CurveLaws()
    ensures Plus(Plus(Plus(f, k), c), g) == Plus(Plus(Plus(k, g), f), c)
  {
    hide CurveLaws;
    hide OnCurve;
    hide Times;
    hide Plus;
    PlusZero(c, c);
    PlusZero(g, c);
    PlusZero(f, c);
    Regroup(Plus(f, k), c, g, Times(0, c));
    Regroup(f, k, Times(0, c), g);
    PlusCommute(f, Plus(k, g));
  }

  lemma SumOfTerms(t: seq<Share>, b: CurvePoint)
    requires CurveLaws() && OrderL(b)
    ensures BatchSum(t, b)
            == Plus(Plus(Times(Responses(t), b), Sum(EdwardsGroup(), KeyTerms(t))), CommitPart(t, b))
  {
    hide CurveLaws;
    hide OrderL;
    hide OnCurve;
    hide Times;
    hide EdwardsGroup;
    hide IsAbelian;
    TermsAre(t, b);
    TimesModL(Responses(t), b);
    var first := Times(Responses(t), b);
    SumParts([first], KeyTerms(t), CommitTerms(t));
    GroupIsAbelian();
    SumSingle(EdwardsGroup(), [first], 0);
    CommitTermsSum(t, b);
  }

  /** For keys of order L the batch sum is the sum of the defects, each times its random multiplier. */
  lemma BatchSumIs(t: seq<Share>, b: CurvePoint)
    requires CurveLaws() && OrderL(b) && KeysOfOrderL(t)
    ensures BatchSum(t, b) == DefectSum(t, b)
  {
    hide CurveLaws;
    hide OrderL;
    hide OnCurve;
    hide KeysOfOrderL;
    hide Times;
    hide Plus;
    hide BatchSum;
    hide DefectSum;
    hide GapPart;
    BatchSumGap(t, b);
    NoGap(t, b);
    ZeroPoint(b);
    PlusZero(BatchSum(t, b), b);
  }

  lemma PlusCommute(p: CurvePoint, q: CurvePoint)
    requires CurveLaws()
    ensures Plus(p, q) == Plus(q, p)
  {
    hide CurveLaws;
    hide IsAbelian;
    hide EdwardsGroup;
    GroupIsAbelian();
    Groups.Commute(EdwardsGroup(), p, q);
  }

  // ---------- a batch as shares ----------

  /** The point that bytes decode to, x negated as the decoder does it; the identity where there is none. */
  ghost function Decoded(b: seq<u8>): CurvePoint
    requires |b| == 32
  {
    if Decodable(b) then
      HasDecoding(b);
      var q: CurvePoint :| DecodesTo(b, q);
      q
    else Point(0, 1)
  }

  lemma HasDecoding(b: seq<u8>)
    requires |b| == 32 && Decodable(b)
    ensures exists q: CurvePoint :: DecodesTo(b, q)
  {
    hide YOf;
    hide SignOf;
    hide Field25519.FSub;
    var x: int :| OnCurve(Point(x, YOf(b)));
    var p: CurvePoint := Point(x, YOf(b));
    Coordinates(p);
    NegOnCurve(p);
    NegatedParity(x);
    hide OnCurve;
    if x % 2 != SignOf(b) || x == 0 {
      assert DecodesTo(b, p);
    } else {
      var n: CurvePoint := Point(Field25519.FSub(0, x), p.y);
      assert DecodesTo(b, n);
    }
  }

  lemma DecodedIs(b: seq<u8>, q: CurvePoint)
    requires CurveLaws() && |b| == 32 && DecodesTo(b, q)
    ensures Decoded(b) == q && Decodable(b)
  {
    hide CurveLaws;
    hide OnCurve;
    hide YOf;
    assert q == Point(q.x, YOf(b));
    assert DecodesTo(b, Decoded(b)) by {
      HasDecoding(b);
    }
    DecodesUnique(b, q, Decoded(b));
  }

  /** 128 random bits. */
  function MultiplierOf(random: seq<u8>): (z: nat)
    requires |random| == 16
    ensures z < TWO128
  {
    MultiplierRange(random);
    LE(random)
  }

  lemma MultiplierRange(random: seq<u8>)
    requires |random| == 16
    ensures 0 <= LE(random) < TWO128
  {
    EvalBound(0x100, random);
    assert Pow(0x100, 4) == 0x1_0000_0000;
    PowAdd(0x100, 4, 4);
    PowAdd(0x100, 8, 8);
  }

  /** What the batch makes of a signature and its random multiplier. */
  ghost function ShareOf(e: Entry, random: seq<u8>): Share
    requires Sized(e) && |random| == 16
  {
    Share(MultiplierOf(random), Challenge(e.rs[..32], e.pk, e.m), LE(e.rs[32..]) % L, Decoded(e.pk),
        Decoded(e.rs[..32]))
  }

  predicate Inputs(items: seq<Entry>, random: seq<seq<u8>>) {
    |random| == |items| && forall i :: 0 <= i < |items| ==> Sized(items[i]) && |random[i]| == 16
  }

  ghost function Shares(items: seq<Entry>, random: seq<seq<u8>>): (t: seq<Share>)
    requires Inputs(items, random)
    ensures |t| == |items| && forall i :: 0 <= i < |items| ==> t[i] == ShareOf(items[i], random[i])
  {
    seq(|items|, i requires 0 <= i < |items| && Inputs(items, random) => ShareOf(items[i], random[i]))
  }

  /** The scalars that belong to signature i, with nothing abbreviated. */
  lemma ScalarsAre(items: seq<Entry>, random: seq<seq<u8>>, i: nat)
    requires Inputs(items, random) && i < |items|
    ensures var e, k := items[i], BatchKeys(Shares(items, random));
      && k[|items| + 1 + i] == LE(random[i])
      && k[1 + i] == (LE(random[i]) * (LE(Sha512.Digest(e.rs[..32] + e.pk + e.m)) % L)) % L
  {
    hide LE;
    hide Decoded;
    hide Responses;
    hide Sha512.Digest;
  }

  /** The sum over the batch of LE(random[i]) times S reduced modulo L. */
  ghost function WeightedResponses(items: seq<Entry>, random: seq<seq<u8>>): int
    requires Inputs(items, random)
  {
    if |items| == 0 then 0
    else WeightedResponses(items[..|items| - 1], random[..|items| - 1])
         + LE(random[|items| - 1]) * (LE(items[|items| - 1].rs[32..]) % L)
  }

  /** The first scalar is that sum modulo L. */
  lemma {:induction false} FirstScalarIs(items: seq<Entry>, random: seq<seq<u8>>)
    requires Inputs(items, random)
    ensures Responses(Shares(items, random)) == WeightedResponses(items, random)
  {
    hide LE;
    hide Decoded;
    hide Challenge;
    if |items| > 0 {
      var n := |items| - 1;
      FirstScalarIs(items[..n], random[..n]);
      assert Shares(items, random)[..n] == Shares(items[..n], random[..n]);
    }
  }

  // ---------- good signatures ----------

  ghost predicate Good(e: Entry, b: CurvePoint)
    requires Sized(e)
  {
    Accepts(e.m, e.pk, e.rs, b)
  }

  /** Key and commitment both decode. */
  ghost predicate Decodes(e: Entry) {
    Sized(e) && Decodable(e.pk) && Decodable(e.rs[..32])
  }

  /** R is the encoding of its own point: y below p, and no sign on x = 0. */
  ghost predicate Canonical(b: seq<u8>)
    requires |b| == 32
  {
    LE(b) % 0x8000_0000_0000_0000_0000_0000_0000_0000_0000_0000_0000_0000_0000_0000_0000_0000 < Field25519.P
        && (Decoded(b).x == 0 ==> SignOf(b) == 0)
  }

  lemma GoodDecodes(e: Entry, b: CurvePoint)
    requires CurveLaws() && Sized(e) && Good(e, b)
    ensures Decodes(e)
  {
    hide CurveLaws;
    hide OnCurve;
    hide LE;
    hide YOf;
    hide Encodes;
    hide Joint;
    assert Solves(e.m, e.pk, e.rs, b);
    var q: CurvePoint :| DecodesTo(e.pk, q) && Encodes(e.rs[..32], Checked(e.m, e.pk, e.rs, q, b));
    DecodedIs(e.pk, q);
    var x := Checked(e.m, e.pk, e.rs, q, b);
    NegatedDecodes(e.rs[..32], x);
    DecodedIs(e.rs[..32], ENeg(x));
  }

  /** A canonical encoding is the encoding of the negated point it decodes to, and only those are. */
  lemma EncodesIff(r: seq<u8>, x: CurvePoint)
    requires CurveLaws() && |r| == 32 && Decodable(r)
    ensures Encodes(r, x) <==> Canonical(r) && Decoded(r) == ENeg(x)
  {
    hide CurveLaws;
    Coordinates(x);
    assert DecodesTo(r, Decoded(r)) by {
      HasDecoding(r);
    }
    if Encodes(r, x) {
      NegatedDecodes(r, x);
      DecodedIs(r, ENeg(x));
      EncodedParts(r, x);
      NegatedParity(x.x);
      TopBytes(r);
    } else if Decoded(r) == ENeg(x) && Canonical(r) {
      TopBytes(r);
      NegatedParity(x.x);
    }
    hide OnCurve;
  }

  lemma TopBytes(r: seq<u8>)
    requires |r| == 32
    ensures LE(r) == LE(r) % 0x8000_0000_0000_0000_0000_0000_0000_0000_0000_0000_0000_0000_0000_0000_0000_0000
        + 0x8000_0000_0000_0000_0000_0000_0000_0000_0000_0000_0000_0000_0000_0000_0000_0000 * SignOf(r)
    ensures LE(r) % 0x8000_0000_0000_0000_0000_0000_0000_0000_0000_0000_0000_0000_0000_0000_0000_0000 < Field25519.P ==>
        YOf(r) == LE(r) % 0x8000_0000_0000_0000_0000_0000_0000_0000_0000_0000_0000_0000_0000_0000_0000_0000
  {
    TopByte(r);
    hide LE;
    var low := LE(r[..31])
        + 0x100_0000_0000_0000_0000_0000_0000_0000_0000_0000_0000_0000_0000_0000_0000_0000 * ((r[31] as int) % 0x80);
    DivModUnique(LE(r), 0x8000_0000_0000_0000_0000_0000_0000_0000_0000_0000_0000_0000_0000_0000_0000_0000,
        (r[31] as int) / 0x80, low);
  }

  /** Checking one signature by itself is the range of S, the form of R, and the absence of a defect. */
  lemma GoodIff(e: Entry, random: seq<u8>, b: CurvePoint)
    requires CurveLaws() && Decodes(e) && |random| == 16
    ensures Good(e, b)
        <==> LE(e.rs[32..]) < TWO253 && Canonical(e.rs[..32]) && Defect(ShareOf(e, random), b) == Point(0, 1)
  {
    hide CurveLaws;
    hide OnCurve;
    hide LE;
    hide YOf;
    hide Encodes;
    hide DecodesTo;
    hide Decodable;
    hide Canonical;
    hide Decoded;
    hide Joint;
    hide Plus;
    hide ENeg;
    var r := e.rs[..32];
    HasDecoding(e.pk);
    DecodedIsOne(e.pk);
    var x := Checked(e.m, e.pk, e.rs, Decoded(e.pk), b);
    EncodesIff(r, x);
    NegIsUnique(x, Decoded(r));
    if Good(e, b) {
      assert Solves(e.m, e.pk, e.rs, b);
      var q: CurvePoint :| DecodesTo(e.pk, q) && Encodes(r, Checked(e.m, e.pk, e.rs, q, b));
      DecodedIs(e.pk, q);
    }
  }

  lemma DecodedIsOne(b: seq<u8>)
    requires |b| == 32 && Decodable(b)
    ensures DecodesTo(b, Decoded(b))
  {
    HasDecoding(b);
  }

  /** x + y = 0 exactly when y = -x. */
  lemma NegIsUnique(x: CurvePoint, y: CurvePoint)
    requires CurveLaws()
    ensures Plus(x, y) == Point(0, 1) <==> y == ENeg(x)
  {
    hide CurveLaws;
    hide IsAbelian;
    hide OnCurve;
    hide EAdd;
    hide ENeg;
    GroupIsAbelian();
    ZeroIs();
    Groups.Inverse(EdwardsGroup(), x);
    if Plus(x, y) == Point(0, 1) {
      NegUnique(EdwardsGroup(), x, y);
    }
  }

  lemma {:induction false} NoDefects(t: seq<Share>, b: CurvePoint)
    requires CurveLaws() && forall i :: 0 <= i < |t| ==> Defect(t[i], b) == Point(0, 1)
    ensures DefectSum(t, b) == Point(0, 1)
  {
    hide CurveLaws;
    hide OnCurve;
    hide Defect;
    hide Times;
    hide Plus;
    ZeroPoint(b);
    if |t| > 0 {
      var e := t[|t| - 1];
      NoDefects(t[..|t| - 1], b);
      ZeroTimes(e.z, b);
      PlusZero(Times(0, b), b);
    }
  }

  lemma ZeroTimes(n: nat, b: CurvePoint)
    requires CurveLaws()
    ensures Times(n, Times(0, b)) == Times(0, b)
  {
    hide CurveLaws;
    hide Times;
    TimesTimes(n, 0, b);
  }

  /** One share with a defect, whose order its multiplier does not reach, keeps the sum from cancelling. */
  lemma {:induction false} OneDefectStays(t: seq<Share>, b: CurvePoint, i: nat, n: nat)
    requires CurveLaws() && i < |t| && forall k :: 0 <= k < |t| && k != i ==> Defect(t[k], b) == Point(0, 1)
    requires HasOrder(EdwardsGroup(), Defect(t[i], b), n) && 0 < t[i].z < n
    ensures DefectSum(t, b) == Times(t[i].z, Defect(t[i], b)) != Point(0, 1)
  {
    hide CurveLaws;
    hide OnCurve;
    hide Defect;
    ZeroPoint(b);
    hide Times;
    hide Plus;
    var s, e := t[..|t| - 1], t[|t| - 1];
    if i == |t| - 1 {
      NoDefects(s, b);
      PlusZero(Times(e.z, Defect(e, b)), b);
      OrderSays(e.z, Defect(e, b), n);
    } else {
      OneDefectStays(s, b, i, n);
      ZeroTimes(e.z, b);
      PlusZero(DefectSum(s, b), b);
    }
  }

  lemma OrderSays(z: nat, p: CurvePoint, n: nat)
    requires HasOrder(EdwardsGroup(), p, n) && 0 < z < n
    ensures Times(z, p) != Point(0, 1)
  {
    hide OnCurve;
    hide EAdd;
    hide ENeg;
    hide Groups.Mul;
    ZeroIs();
  }

  // ---------- the point a batch comes to ----------

  /**
   What ge25519_multi_scalarmult_vartime promises of the point it returns for a batch; behind a quantifier, as
   OnCurve.
   */
  ghost predicate Returned(t: seq<Share>, b: CurvePoint, r: CurvePoint) {
    forall q: CurvePoint :: q == r ==> IsLeftOver(t, b, q)
  }

  ghost predicate IsLeftOver(t: seq<Share>, b: CurvePoint, r: CurvePoint) {
    var n := 2 * |t| + 1;
    BatchVerify.InitialSize(n) <= n && BatchVerify.LeftOver(EdwardsGroup(), BatchKeys(t), BatchPoints(t, b), n, r)
  }

  /** The scalars let the 128-bit multipliers join, and have no common factor. */
  ghost predicate Joins(t: seq<Share>) {
    var n := 2 * |t| + 1;
    BatchVerify.InitialSize(n) <= n && Extends(BatchKeys(t), BatchVerify.InitialSize(n)) && IsGcd(1, BatchKeys(t), n)
  }

  /** The returned point is then the batch sum. */
  lemma ReturnedIsBatchSum(t: seq<Share>, b: CurvePoint, r: CurvePoint)
    requires CurveLaws() && Returned(t, b, r) && Joins(t)
    ensures r == BatchSum(t, b)
  {
    hide CurveLaws;
    hide OnCurve;
    hide EdwardsGroup;
    hide IsAbelian;
    hide Total;
    hide BatchVerify.LeftOver;
    hide BatchVerify.InitialSize;
    hide Extends;
    hide IsGcd;
    hide BatchKeys;
    hide BatchPoints;
    GroupIsAbelian();
    assert IsLeftOver(t, b, r);
    BatchVerify.WholeSum(EdwardsGroup(), BatchKeys(t), BatchPoints(t, b), 2 * |t| + 1, r);
  }

  /** It is the identity exactly when the multiplied defects are what the reduction left out. */
  lemma NeutralIff(t: seq<Share>, b: CurvePoint, r: CurvePoint)
    requires CurveLaws() && OrderL(b) && Returned(t, b, r) && Joins(t)
    ensures r == Point(0, 1) <==> DefectSum(t, b) == GapPart(t, b)
  {
    hide CurveLaws;
    hide OrderL;
    hide OnCurve;
    hide Returned;
    hide Joins;
    hide BatchSum;
    hide DefectSum;
    hide GapPart;
    hide Plus;
    hide Times;
    ReturnedIsBatchSum(t, b, r);
    BatchSumGap(t, b);
    var gap := GapPart(t, b);
    ZeroPoint(b);
    PlusZero(gap, b);
    if Plus(r, gap) == gap {
      CancelRight(r, Times(0, b), gap);
    }
  }

  lemma CancelRight(p: CurvePoint, q: CurvePoint, c: CurvePoint)
    requires CurveLaws() && Plus(p, c) == Plus(q, c)
    ensures p == q
  {
    hide CurveLaws;
    hide IsAbelian;
    hide EdwardsGroup;
    GroupIsAbelian();
    Groups.Cancel(EdwardsGroup(), p, q, c);
  }

  // ---------- the same on coordinates ----------

  /** ge25519_add on coordinates is the group's addition; `r` may be `p` or `q`. */
  method AddPoints(r: Ge, p: Ge, q: Ge, ghost a: CurvePoint, ghost b: CurvePoint)
    requires CurveLaws() && r.Shape() && p.Shape() && q.Shape() && p.AllRed() && q.AllRed()
    requires IsFull(p.Value(), a) && IsFull(q.Value(), b)
    modifies r.x, r.y, r.z, r.t
    ensures r.AllRed() && IsFull(r.Value(), Plus(a, b))
  {
    hide CurveLaws;
    hide OnCurve;
    hide IsFull;
    hide IsP1P1;
    hide ToFull;
    hide SumCoords;
    hide EAdd;
    hide Plus;
    hide Field25519.Res;
    hide Field25519.Red;
    SumIsSum(p.Value(), q.Value(), a, b);
    ToFullKeepsPoint(SumCoords(p.Value(), q.Value()), EAdd(a, b));
    PlusIs(a, b);
    GeAdd(r, p, q);
  }

  /** ge25519_is_neutral_vartime: X = 0 and Y = Z. */
  method IsNeutral(p: Ge, ghost q: CurvePoint) returns (neutral: bool)
    requires CurveLaws() && p.Shape() && p.PartialRed() && IsPartial(p.Value(), q)
    ensures neutral <==> q == Point(0, 1)
  {
    hide CurveLaws;
    hide OnCurve;
    hide LE;
    hide Field25519.Res;
    hide Field25519.Red;
    var x, y, z := new u8[32], new u8[32], new u8[32];
    RedBelow(p.x[..]);
    RedBelow(p.y[..]);
    RedBelow(p.z[..]);
    FieldBytes.Contract(x, 0, p.x);
    FieldBytes.Contract(y, 0, p.y);
    FieldBytes.Contract(z, 0, p.z);
    assert x[0..32] == x[..] && y[0..32] == y[..] && z[0..32] == z[..];
    var zero: seq<u8> := seq(32, i => 0);
    ZerosLE(zero);
    if LE(x[..]) == 0 {
      FieldBytes.EncodingUnique(x[..], zero);
    }
    if LE(y[..]) == LE(z[..]) {
      FieldBytes.EncodingUnique(y[..], z[..]);
    }
    NeutralCoords(p.Value(), q);
    neutral := x[..] == zero && y[..] == z[..];
  }

  lemma NeutralCoords(c: Coords, q: CurvePoint)
    requires CurveLaws() && IsPartial(c, q)
    ensures c.x == 0 && c.y == c.z <==> q == Point(0, 1)
  {
    hide CurveLaws;
    hide OnCurve;
    hide Field25519.FMul;
    Field25519.FMulZero(c.z);
    Field25519.FMulOne(c.z);
    Coordinates(q);
    if c.x == 0 && c.y == c.z {
      CancelFactor(q.x, 0, c.z);
      CancelFactor(q.y, 1, c.z);
      assert q == Point(q.x, q.y);
    }
  }

  // ---------- the scalars of a batch ----------

  /** Reduced scalars in buffers of their own. */
  ghost predicate Hold(s: seq<array<u64>>, v: seq<int>)
    reads s
  {
    && |s| == |v|
    && forall i :: 0 <= i < |s| ==> s[i].Length == 5 && Limbs(s[i][..], 0x1_0000_0000) && Val(s[i][..]) == v[i]
  }

  ghost predicate Distinct(s: seq<array<u64>>) {
    forall i, j :: 0 <= i < j < |s| ==> s[i] != s[j]
  }

  ghost function MultiplierList(t: seq<Share>): (z: seq<int>)
    ensures |z| == |t|
  {
    seq(|t|, i requires 0 <= i < |t| => t[i].z)
  }

  ghost function KeyList(t: seq<Share>): (z: seq<int>)
    ensures |z| == |t|
  {
    seq(|t|, i requires 0 <= i < |t| => Weight(t[i]) % L)
  }

  /** The random multipliers as scalars. */
  method Multipliers(items: seq<Entry>, random: seq<seq<u8>>) returns (r: seq<array<u64>>)
    requires Inputs(items, random)
    ensures Hold(r, MultiplierList(Shares(items, random))) && Distinct(r)
    ensures forall i :: 0 <= i < |r| ==> fresh(r[i])
  {
    hide LE;
    hide Val;
    hide Decoded;
    hide Challenge;
    ghost var z := MultiplierList(Shares(items, random));
    r := [];
    while |r| < |random|
      invariant |r| <= |random| && Hold(r, z[..|r|]) && Distinct(r)
      invariant forall i :: 0 <= i < |r| ==> fresh(r[i])
    {
      var x := new u64[5];
      Expand256(x, random[|r|]);
      SmallMultiplier(random[|r|]);
      r := r + [x];
    }
    assert z[..|r|] == z;
  }

  lemma SmallMultiplier(random: seq<u8>)
    requires |random| == 16
    ensures LE(random) % L == MultiplierOf(random)
  {
    MultiplierRange(random);
    hide LE;
    DivModUnique(LE(random), L, 0, LE(random));
  }

  /** scalars[0]: the sum of the responses times their multipliers. */
  method ResponseSum(items: seq<Entry>, random: seq<seq<u8>>, r: seq<array<u64>>) returns (sum: array<u64>)
    requires Inputs(items, random) && |items| > 0 && Hold(r, MultiplierList(Shares(items, random)))
    ensures fresh(sum) && sum.Length == 5 && Limbs(sum[..], 0x1_0000_0000)
    ensures Val(sum[..]) == Responses(Shares(items, random)) % L
  {
    hide LE;
    hide Val;
    hide Decoded;
    hide Challenge;
    hide Limbs;
    hide Responses;
    ghost var t := Shares(items, random);
    sum := new u64[5];
    Expand256(sum, items[0].rs[32..]);
    Mul256(sum, sum, r[0]);
    FirstResponse(t);
    var i := 1;
    while i < |items|
      invariant 1 <= i <= |items| && Limbs(sum[..], 0x1_0000_0000) && Val(sum[..]) == Responses(t[..i]) % L
      invariant Hold(r, MultiplierList(t))
    {
      var x := new u64[5];
      Expand256(x, items[i].rs[32..]);
      Mul256(x, x, r[i]);
      NextResponse(t, i);
      Add256(sum, sum, x);
      i := i + 1;
    }
    assert t[..i] == t;
  }

  lemma FirstResponse(t: seq<Share>)
    requires |t| > 0
    ensures Responses(t[..1]) % L == (t[0].s * t[0].z) % L
  {
    var u := t[..1];
    assert Responses(u[..0]) == 0;
    assert u[0].z * u[0].s == t[0].s * t[0].z;
  }

  lemma NextResponse(t: seq<Share>, i: nat)
    requires i < |t|
    ensures Responses(t[..i + 1]) % L == (Responses(t[..i]) % L + (t[i].s * t[i].z) % L) % L
    ensures 0 <= Responses(t[..i]) % L < L && 0 <= (t[i].s * t[i].z) % L < L
  {
    var u := t[..i + 1];
    assert u[..i] == t[..i];
    assert Responses(u) == Responses(t[..i]) + t[i].z * t[i].s;
    hide Responses;
    SumModL(Responses(t[..i]), t[i].z, t[i].s);
  }

  lemma SumModL(a: int, z: int, s: int)
    ensures (a + z * s) % L == (a % L + (s * z) % L) % L
  {
    var c := s * z;
    assert z * s == c;
    AddModL(a, c % L);
    AddModL(c, a);
  }

  /** scalars[1..n]: the challenges times their multipliers. */
  method KeyScalars(items: seq<Entry>, random: seq<seq<u8>>, r: seq<array<u64>>) returns (k: seq<array<u64>>)
    requires Inputs(items, random) && Hold(r, MultiplierList(Shares(items, random)))
    ensures Hold(k, KeyList(Shares(items, random))) && Distinct(k)
    ensures forall i :: 0 <= i < |k| ==> fresh(k[i])
  {
    hide LE;
    hide Val;
    hide Decoded;
    hide Sha512.Digest;
    ghost var t := Shares(items, random);
    ghost var z := KeyList(t);
    k := [];
    while |k| < |items|
      invariant |k| <= |items| && Hold(k, z[..|k|]) && Distinct(k)
      invariant forall i :: 0 <= i < |k| ==> fresh(k[i])
      invariant Hold(r, MultiplierList(t))
    {
      var x := OneKey(items[|k|], r[|k|]);
      assert t[|k|].z * t[|k|].h == t[|k|].h * t[|k|].z;
      k := k + [x];
    }
    assert z[..|k|] == z;
  }

  method OneKey(e: Entry, r: array<u64>) returns (x: array<u64>)
    requires Sized(e) && r.Length == 5 && Limbs(r[..], 0x1_0000_0000)
    ensures fresh(x) && x.Length == 5 && Limbs(x[..], 0x1_0000_0000)
    ensures Val(x[..]) == (LE(Sha512.Digest(e.rs[..32] + e.pk + e.m)) % L * Val(r[..])) % L
  {
    hide LE;
    hide Val;
    hide Limbs;
    hide Sha512.Digest;
    var hram := new u8[64];
    x := new u64[5];
    Hram(hram, e.rs, e.pk, e.m);
    Expand256(x, hram[..]);
    Mul256(x, x, r);
  }

  /** All scalars of a batch, in the order of the source. */
  method BatchScalars(items: seq<Entry>, random: seq<seq<u8>>) returns (s: seq<array<u64>>)
    requires Inputs(items, random) && |items| > 0
    ensures Hold(s, BatchKeys(Shares(items, random))) && Distinct(s)
    ensures forall i :: 0 <= i < |s| ==> fresh(s[i])
  {
    hide LE;
    hide Val;
    hide Limbs;
    hide ShareOf;
    hide Responses;
    hide BatchKeys;
    hide KeyList;
    hide MultiplierList;
    ghost var t := Shares(items, random);
    hide Shares;
    var r := Multipliers(items, random);
    var sum := ResponseSum(items, random, r);
    var k := KeyScalars(items, random, r);
    s := [sum] + k + r;
    BatchKeysAre(t);
  }

  lemma BatchKeysAre(t: seq<Share>)
    ensures BatchKeys(t) == [Responses(t) % L] + KeyList(t) + MultiplierList(t)
  {
    hide Responses;
  }

  // ---------- the points of a batch ----------

  /** ge25519_unpack_negative_vartime with its result as an affine point. */
  method Unpacked(p: seq<u8>) returns (ok: bool, q: CurvePoint)
    requires CurveLaws() && |p| == 32
    ensures ok <==> Decodable(p)
    ensures ok ==> q == Decoded(p)
  {
    hide CurveLaws;
    hide OnCurve;
    hide IsFull;
    hide DecodesTo;
    hide Decodable;
    hide Decoded;
    hide YOf;
    hide Field25519.Res;
    hide Field25519.Red;
    var g := new Ge();
    q := EdwardsGroup().zero;
    ok := UnpackNegative(g, p);
    if ok {
      ghost var a: Point := Point(Field25519.Res(g.x[..]), YOf(p));
      DecodedOnCurve(p, a);
      UnitCoordinates(g.Value(), a);
      assert a == Point(Field25519.Res(g.x[..]), Field25519.Res(g.y[..]));
      q := Point(Field25519.Res(g.x[..]), Field25519.Res(g.y[..]));
      DecodedIs(p, q);
    }
  }

  lemma UnitCoordinates(c: Coords, p: CurvePoint)
    requires IsFull(c, p) && c.z == 1
    ensures c.x == p.x && c.y == p.y
  {
    Coordinates(p);
    hide OnCurve;
    Field25519.FMulOne(p.x);
    Field25519.FMulOne(p.y);
  }

  /** Every key, then every commitment; given up at the first that does not decode. */
  method DecodePoints(items: seq<Entry>, ghost random: seq<seq<u8>>, base: CurvePoint, points: array<CurvePoint>)
    returns (ok: bool)
    requires CurveLaws() && Inputs(items, random) && points.Length == 2 * |items| + 1
    modifies points
    ensures ok <==> forall i :: 0 <= i < |items| ==> Decodes(items[i])
    ensures ok ==> points[..] == BatchPoints(Shares(items, random), base)
  {
    hide CurveLaws;
    hide OnCurve;
    hide Decodable;
    hide Decoded;
    hide LE;
    hide Challenge;
    var n := |items|;
    ghost var t := Shares(items, random);
    points[0] := base;
    var i := 0;
    while i < n
      invariant 0 <= i <= n && points[0] == base
      invariant forall k :: 0 <= k < i ==> Decodable(items[k].pk) && points[k + 1] == t[k].a
    {
      var ok1, q := Unpacked(items[i].pk);
      if !ok1 {
        return false;
      }
      points[i + 1] := q;
      i := i + 1;
    }
    i := 0;
    while i < n
      invariant 0 <= i <= n && points[0] == base
      invariant forall k :: 0 <= k < n ==> points[k + 1] == t[k].a
      invariant forall k :: 0 <= k < i ==> Decodable(items[k].rs[..32]) && points[n + k + 1] == t[k].r
    {
      var ok2, q := Unpacked(items[i].rs[..32]);
      if !ok2 {
        return false;
      }
      points[n + i + 1] := q;
      i := i + 1;
    }
    ok := true;
    PointsAre(points[..], t, base);
  }

  lemma PointsAre(p: seq<CurvePoint>, t: seq<Share>, base: CurvePoint)
    requires |p| == 2 * |t| + 1 && p[0] == base
    requires forall k :: 0 <= k < |t| ==> p[k + 1] == t[k].a
    requires forall k :: 0 <= k < |t| ==> p[|t| + k + 1] == t[k].r
    ensures p == BatchPoints(t, base)
  {
    hide OnCurve;
    forall i | 0 <= i < |p|
      ensures p[i] == BatchPoints(t, base)[i]
    {
      if 0 < i <= |t| {
        assert p[(i - 1) + 1] == t[i - 1].a;
      } else if i > |t| {
        assert p[|t| + (i - |t| - 1) + 1] == t[i - |t| - 1].r;
      }
    }
  }

  // ---------- one batch ----------

  /** What the final multiplication needs of a batch's scalars: 2^224 does not divide all of the first half. */
  ghost predicate BatchReady(t: seq<Share>) {
    var n := BatchVerify.InitialSize(2 * |t| + 1);
    n <= 2 * |t| + 1 && (BatchVerify.AllZero(BatchKeys(t), n) || !CommonDivisor(TWO224, BatchKeys(t), n))
  }

  /** The scalars that join late are among the 128-bit multipliers. */
  lemma LateScalars(items: seq<Entry>, random: seq<seq<u8>>)
    requires Inputs(items, random) && |items| > 1 && BatchReady(Shares(items, random))
    ensures BatchVerify.Ready(BatchKeys(Shares(items, random)), 2 * |items| + 1)
  {
    hide Decoded;
    hide Challenge;
    hide LE;
    hide Responses;
    hide Weight;
    hide CommonDivisor;
    hide BatchVerify.AllZero;
    var n, t := |items|, Shares(items, random);
    BatchVerify.InitialSizeOdd(2 * n + 1);
    BatchVerify.InitialSizeHalf(2 * n + 1);
    forall i | BatchVerify.InitialSize(2 * n + 1) <= i < 2 * n + 1
      ensures BatchKeys(t)[i] < TWO128
    {
      assert BatchKeys(t)[i] == t[i - n - 1].z == MultiplierOf(random[i - n - 1]);
    }
  }

  /** One pass of the loop up to the neutral test. */
  method BatchPoint(items: seq<Entry>, random: seq<seq<u8>>, base: CurvePoint) returns (decoded: bool, r: CurvePoint)
    requires CurveLaws() && Inputs(items, random) && |items| > 1
    requires (forall i :: 0 <= i < |items| ==> Decodes(items[i])) ==> BatchReady(Shares(items, random))
    ensures decoded <==> forall i :: 0 <= i < |items| ==> Decodes(items[i])
    ensures decoded ==> Returned(Shares(items, random), base, r)
  {
    hide CurveLaws;
    hide OnCurve;
    hide ShareOf;
    hide Decodes;
    hide Val;
    hide BatchKeys;
    hide BatchPoints;
    hide EdwardsGroup;
    hide BatchReady;
    hide MultiplierOf;
    hide Challenge;
    hide Decoded;
    hide Decodable;
    hide BatchVerify.Ready;
    hide BatchVerify.LeftOver;
    hide BatchVerify.InitialSize;
    r := base;
    ghost var t := Shares(items, random);
    var s := BatchScalars(items, random);
    var points := new CurvePoint[2 * |items| + 1](i => base);
    decoded := DecodePoints(items, random, base, points);
    if !decoded {
      return;
    }
    var batch := new BatchVerify.BatchHeap<CurvePoint>(s, points);
    assert batch.keys == BatchKeys(t);
    IsGroup();
    BatchVerify.InitialSizeOdd(2 * |items| + 1);
    LateScalars(items, random);
    r := batch.MultiScalarmult(EdwardsGroup(), 2 * |items| + 1);
  }

  lemma IsGroup()
    requires CurveLaws()
    ensures IsAbelian(EdwardsGroup())
  {
  }
}
