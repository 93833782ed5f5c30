/**
 ge25519_multi_scalarmult_vartime_final: the point multiplied by the one scalar left over.
 The double-and-add loop starts with the point itself and then still processes the scalar's top bit,
 so for scalars above one the result is [2^len + s]P with len the bit length of s, not [s]P.
 */
module FinalMultiple {
  import opened Numbers
  import opened Scalars
  import opened ModmBatch
  import opened Groups

  function BitLength(t: nat): nat {
    if t == 0 then 0 else 1 + BitLength(t / 2)
  }

  lemma {:induction false} BitLengthIs(t: nat, n: nat)
    requires n > 0 && Pow2(n - 1) <= t < Pow2(n)
    ensures BitLength(t) == n
  {
    if n > 1 {
      BitLengthIs(t / 2, n - 1);
    } else {
      assert t == 1;
      assert BitLength(1) == 1 + BitLength(0);
    }
  }

  /** What limbs 0 to 3 hold, and limb 4. */
  function LowLimbs(v: int): (r: nat)
    ensures r < TWO224
  {
    v % 0x1_0000_0000_0000_0000_0000_0000_0000_0000_0000_0000_0000_0000_0000_0000
  }

  function HighLimb(v: int): int {
    v / 0x1_0000_0000_0000_0000_0000_0000_0000_0000_0000_0000_0000_0000_0000_0000
  }

  /** The multiple of the point that comes back; limb 4 is never looked at. */
  function Multiple(s: nat): nat {
    if s <= 1 then s else
    Pow2(BitLength(LowLimbs(s))) + LowLimbs(s)
  }

  /** The number in the limbs below n. */
  function Low(a: seq<int>, n: nat): int
    requires |a| == 5 && n <= 5
  {
    if n == 0 then 0 else Low(a, n - 1) + Pow2(56 * (n - 1)) * a[n - 1]
  }

  /** The part of the scalar below bit e of limb n. */
  function Rest(a: seq<int>, n: nat, e: nat): int
    requires |a| == 5 && n < 5
  {
    Low(a, n) + Pow2(56 * n) * (a[n] % Pow2(e))
  }

  /** Bit e of a limb. */
  function Bit(x: nat, flag: nat): (b: nat)
    requires flag > 0
    ensures b <= 1
  {
    (x / flag) % 2
  }

  lemma ModTwice(x: nat, f: nat)
    requires f > 0
    ensures x % (2 * f) == f * Bit(x, f) + x % f
  {
    var q, r := x / f, x % f;
    var h, b := q / 2, q % 2;
    assert x == f * q + r;
    assert f * q == f * (2 * h + b) == (2 * f) * h + f * b;
    assert f * b == if b == 0 then 0 else f;
    DivModUnique(x, 2 * f, h, f * b + r);
  }

  lemma ZeroBit(x: nat, f: nat)
    requires f > 0 && Bit(x, f) == 0
    ensures x % (2 * f) == x % f
  {
    ModTwice(x, f);
  }

  lemma TakeBit(a: seq<int>, n: nat, e: nat)
    requires |a| == 5 && n < 5 && a[n] >= 0
    ensures Rest(a, n, e + 1) == Rest(a, n, e) + Pow2(56 * n + e) * Bit(a[n], Pow2(e))
  {
    ModTwice(a[n], Pow2(e));
    Pow2Add(56 * n, e);
    Spread(Pow2(56 * n), Pow2(e), Bit(a[n], Pow2(e)), a[n] % Pow2(e));
  }

  lemma Spread(w: int, f: int, b: int, r: int)
    ensures w * (f * b + r) == w * r + (w * f) * b
  {
  }

  lemma NextLimb(a: seq<int>, n: nat)
    requires Limbs(a, 0x100_0000_0000_0000) && 0 < n < 5
    ensures Rest(a, n, 0) == Rest(a, n - 1, 56) == Low(a, n)
  {
    Pow2Bytes();
    Mod1(a[n]);
    assert a[n - 1] % 0x100_0000_0000_0000 == a[n - 1];
  }

  lemma Mod1(x: int)
    ensures x % Pow2(0) == 0
  {
    assert Pow2(0) == 1;
  }

  lemma LowIsTrunc(a: seq<int>)
    requires Limbs(a, 0x100_0000_0000_0000)
    ensures Low(a, 4) == LowLimbs(Val(a))
    ensures Low(a, 0) == 0
  {
    Pow2Bytes();
    Pow2Add(56, 56);
    Pow2Add(112, 56);
    assert Low(a, 1) == a[0];
    assert Low(a, 2) == a[0] + 0x100_0000_0000_0000 * a[1];
    assert Low(a, 3) == a[0] + 0x100_0000_0000_0000 * a[1] + 0x1_0000_0000_0000_0000_0000_0000_0000 * a[2];
    assert Low(a, 4) == a[0] + 0x100_0000_0000_0000 * a[1] + 0x1_0000_0000_0000_0000_0000_0000_0000 * a[2]
        + 0x100_0000_0000_0000_0000_0000_0000_0000_0000_0000_0000 * a[3];
    DivModUnique(Val(a), 0x1_0000_0000_0000_0000_0000_0000_0000_0000_0000_0000_0000_0000_0000_0000, a[4], Low(a, 4));
  }

  lemma {:induction false} LowRange(a: seq<int>, n: nat)
    requires Limbs(a, 0x100_0000_0000_0000) && n <= 5
    ensures 0 <= Low(a, n) < Pow2(56 * n)
  {
    if n > 0 {
      LowRange(a, n - 1);
      Pow2Add(56 * (n - 1), 56);
      Pow2Bytes();
      DigitRange(Low(a, n - 1), Pow2(56 * (n - 1)), a[n - 1], 0x100_0000_0000_0000);
    }
  }

  lemma DigitRange(low: int, w: int, x: int, b: int)
    requires 0 <= low < w && 0 <= x < b
    ensures 0 <= low + w * x < w * b
  {
    MulMono(w, x, b - 1);
    MulMono(w, 0, x);
    assert w * (b - 1) == w * b - w;
  }

  lemma RestRange(a: seq<int>, n: nat, e: nat)
    requires Limbs(a, 0x100_0000_0000_0000) && n < 5
    ensures 0 <= Rest(a, n, e) < Pow2(56 * n + e)
  {
    LowRange(a, n);
    Pow2Add(56 * n, e);
    DigitRange(Low(a, n), Pow2(56 * n), a[n] % Pow2(e), Pow2(e));
  }

  /** What is still to be done: `acc` copies are in hand and the scalar below the current bit is left. */
  ghost predicate Doing(a: seq<int>, n: nat, e: nat, acc: int, total: int)
    requires |a| == 5 && n < 5
  {
    total == acc * Pow2(56 * n + e) + Rest(a, n, e)
  }

  lemma DoingStep(a: seq<int>, n: nat, e: nat, acc: int, total: int)
    requires |a| == 5 && n < 5 && a[n] >= 0 && Doing(a, n, e + 1, acc, total)
    ensures Doing(a, n, e, 2 * acc + Bit(a[n], Pow2(e)), total)
  {
    TakeBit(a, n, e);
    hide Rest;
    hide Bit;
    ShiftIn(acc, Pow2(56 * n + e), Bit(a[n], Pow2(e)));
    assert Pow2(56 * n + (e + 1)) == 2 * Pow2(56 * n + e);
  }

  lemma ShiftIn(acc: int, p: int, b: int)
    ensures (2 * acc + b) * p == acc * (2 * p) + p * b
  {
  }

  lemma DoingNext(a: seq<int>, n: nat, acc: int, total: int)
    requires Limbs(a, 0x100_0000_0000_0000) && 0 < n < 5 && Doing(a, n, 0, acc, total)
    ensures Doing(a, n - 1, 56, acc, total)
  {
    NextLimb(a, n);
  }

  lemma DoingDone(a: seq<int>, acc: int, total: int)
    requires |a| == 5 && Doing(a, 0, 0, acc, total)
    ensures total == acc
  {
    Mod1(a[0]);
  }

  /** One doubling, and one addition when the bit under the flag is set. */
  method DoubleAdd<P(!new)>(g: Group<P>, r: P, point: P, x: u64, flag: u64, ghost acc: int) returns (s: P)
    requires IsAbelian(g) && flag > 0 && r == Mul(g, acc, point)
    ensures s == Mul(g, 2 * acc + Bit(x, flag), point)
  {
    hide IsAbelian;
    hide Mul;
    MulAdd(g, acc, acc, point);
    MulStep(g, 2 * acc, point);
    s := g.add(r, r);
    if (x / flag) % 2 != 0 {
      s := g.add(s, point);
    }
  }

  /** The highest nonzero limb, at or below limb 3. */
  method FindTopLimb(scalar: array<u64>) returns (limb: nat)
    requires scalar.Length == 5 && Limbs(scalar[..], 0x100_0000_0000_0000) && LowLimbs(Val(scalar[..])) != 0
    ensures limb < 4 && scalar[limb] != 0 && Low(scalar[..], limb + 1) == LowLimbs(Val(scalar[..]))
  {
    hide Low;
    hide Val;
    ghost var a: seq<int> := scalar[..];
    LowIsTrunc(a);
    limb := 3;
    while scalar[limb] == 0
      invariant limb < 4 && Low(a, limb + 1) == LowLimbs(Val(a))
      decreases limb
    {
      SkipLimb(a, limb);
      limb := limb - 1;
    }
  }

  /** The limb and the flag of the scalar's top bit. */
  method FindTopBit(scalar: array<u64>) returns (limb: nat, flag: u64, ghost e: nat)
    requires scalar.Length == 5 && Limbs(scalar[..], 0x100_0000_0000_0000) && LowLimbs(Val(scalar[..])) != 0
    ensures limb < 4 && e < 56 && flag == Pow2(e)
    ensures Rest(scalar[..], limb, e + 1) == LowLimbs(Val(scalar[..]))
    ensures BitLength(LowLimbs(Val(scalar[..]))) == 56 * limb + e + 1
  {
    hide Low;
    hide Rest;
    hide Val;
    hide Bit;
    ghost var a: seq<int> := scalar[..];
    ghost var t := LowLimbs(Val(a));
    limb := FindTopLimb(scalar);
    flag := 0x80_0000_0000_0000;
    e := 55;
    TopOfLimb(a, limb);
    while Bit(scalar[limb], flag) == 0
      invariant e < 56 && flag == Pow2(e)
      invariant Rest(a, limb, e + 1) == t
      invariant a[limb] % Pow2(e + 1) != 0
      decreases e
    {
      TakeBit(a, limb, e);
      ZeroBit(a[limb], Pow2(e));
      flag := flag / 2;
      Mod1(a[limb]);
      e := e - 1;
    }
    TopBitSet(a, limb, e);
  }

  lemma TopBitSet(a: seq<int>, n: nat, e: nat)
    requires Limbs(a, 0x100_0000_0000_0000) && n < 5 && Bit(a[n], Pow2(e)) != 0
    ensures Rest(a, n, e + 1) >= 0 && BitLength(Rest(a, n, e + 1)) == 56 * n + e + 1
  {
    hide Rest;
    hide Bit;
    hide BitLength;
    TakeBit(a, n, e);
    RestRange(a, n, e);
    RestRange(a, n, e + 1);
    BitLengthIs(Rest(a, n, e + 1), 56 * n + e + 1);
  }

  lemma SkipLimb(a: seq<int>, n: nat)
    requires |a| == 5 && n < 5 && a[n] == 0
    ensures Low(a, n + 1) == Low(a, n)
    ensures n == 0 ==> Low(a, n + 1) == 0
  {
  }

  lemma TopOfLimb(a: seq<int>, n: nat)
    requires Limbs(a, 0x100_0000_0000_0000) && n < 5
    ensures Rest(a, n, 56) == Low(a, n + 1)
    ensures a[n] % Pow2(56) == a[n]
    ensures Pow2(55) == 0x80_0000_0000_0000
  {
    Pow2Bytes();
    assert Pow2(56) == 2 * Pow2(55);
    hide Pow2;
    DivModUnique(a[n], 0x100_0000_0000_0000, 0, a[n]);
  }

  /** ge25519_multi_scalarmult_vartime_final. */
  method Final<P(!new)>(g: Group<P>, point: P, scalar: array<u64>) returns (r: P)
    requires IsAbelian(g)
    requires scalar.Length == 5 && Limbs(scalar[..], 0x100_0000_0000_0000)
    requires Val(scalar[..]) == 0 || LowLimbs(Val(scalar[..])) != 0
    ensures r == Mul(g, Multiple(Val(scalar[..])), point)
  {
    hide IsAbelian;
    hide Doing;
    hide Mul;
    hide Val;
    hide Multiple;
    MultipleSmall();
    var isOne := IsOne(scalar);
    if isOne {
      MulOne(g, point);
      return point;
    }
    var isZero := IsZero(scalar);
    if isZero {
      MulZero(g, point);
      return g.zero;
    }
    r := point;
    ghost var a: seq<int> := scalar[..];
    ghost var e: nat;
    var limb: nat, flag: u64;
    limb, flag, e := FindTopBit(scalar);
    ValNonneg(a);
    ghost var total, acc := Multiple(Val(a)), 1;
    DoingStart(a, limb, e);
    MulOne(g, point);
    while true
      invariant limb < 4 && e < 56 && flag == Pow2(e)
      invariant Doing(a, limb, e + 1, acc, total)
      invariant r == Mul(g, acc, point)
      decreases limb, e
    {
      DoingStep(a, limb, e, acc, total);
      r := DoubleAdd(g, r, point, scalar[limb], flag, acc);
      acc := 2 * acc + Bit(a[limb], Pow2(e));
      flag := flag / 2;
      if flag == 0 {
        if limb == 0 {
          break;
        }
        DoingNext(a, limb, acc, total);
        TopOfLimb(a, limb);
        limb := limb - 1;
        flag := 0x80_0000_0000_0000;
        e := 55;
      } else {
        e := e - 1;
      }
    }
    DoingDone(a, acc, total);
  }

  lemma MultipleSmall()
    ensures Multiple(0) == 0 && Multiple(1) == 1
  {
  }

  lemma ValNonneg(a: seq<int>)
    requires Limbs(a, 0x100_0000_0000_0000)
    ensures Val(a) >= 0
  {
  }

  lemma MulZero<P>(g: Group<P>, p: P)
    ensures Mul(g, 0, p) == g.zero
  {
  }

  lemma DoingStart(a: seq<int>, n: nat, e: nat)
    requires Limbs(a, 0x100_0000_0000_0000) && n < 5 && 1 < Val(a)
    requires Rest(a, n, e + 1) == LowLimbs(Val(a)) && BitLength(LowLimbs(Val(a))) == 56 * n + e + 1
    ensures Doing(a, n, e + 1, 1, Multiple(Val(a)))
  {
    hide Rest;
    hide BitLength;
  }

  // ---------- when the result is the multiple asked for ----------

  /**
   The result is [s]P exactly when s is 0 or 1, or the top bit's power of two, less the part of s in limb 4,
   kills the point.
   */
  lemma FinalIsExact<P(!new)>(g: Group<P>, s: nat, p: P)
    requires IsAbelian(g)
    ensures Mul(g, Multiple(s), p) == Mul(g, s, p)
            <==> s <= 1 || Mul(g,
                Pow2(BitLength(LowLimbs(s)))
                - 0x1_0000_0000_0000_0000_0000_0000_0000_0000_0000_0000_0000_0000_0000_0000 * HighLimb(s), p) == g.zero
  {
    hide IsAbelian;
    hide Mul;
    hide BitLength;
    hide Pow2;
    if s > 1 {
      SameMultiple(g, Pow2(BitLength(LowLimbs(s)))
          - 0x1_0000_0000_0000_0000_0000_0000_0000_0000_0000_0000_0000_0000_0000_0000 * HighLimb(s), s, p);
    }
  }

  lemma SameMultiple<P(!new)>(g: Group<P>, t: int, s: int, p: P)
    requires IsAbelian(g)
    ensures Mul(g, t + s, p) == Mul(g, s, p) <==> Mul(g, t, p) == g.zero
  {
    hide IsAbelian;
    hide Mul;
    MulAdd(g, t, s, p);
    Identity(g, Mul(g, s, p));
    if Mul(g, t + s, p) == Mul(g, s, p) {
      Cancel(g, Mul(g, t, p), g.zero, Mul(g, s, p));
    }
  }

  /** A point killed by a power of two and by an odd number is the identity. */
  lemma {:induction false} OddAndPowerOfTwo<P(!new)>(g: Group<P>, e: nat, n: nat, p: P)
    requires IsAbelian(g) && n % 2 == 1 && Mul(g, n, p) == g.zero && Mul(g, Pow2(e), p) == g.zero
    ensures p == g.zero
  {
    hide IsAbelian;
    hide Mul;
    if e == 0 {
      assert Pow2(0) == 1;
      MulOne(g, p);
    } else {
      var q := Mul(g, 2, p);
      MulMul(g, Pow2(e - 1), 2, p);
      MulMul(g, n, 2, p);
      MulMul(g, 2, n, p);
      MulOfZero(g, 2);
      assert n * 2 == 2 * n && Pow2(e - 1) * 2 == Pow2(e);
      OddAndPowerOfTwo(g, e - 1, n, q);
      MulMul(g, n / 2, 2, p);
      MulOfZero(g, n / 2);
      MulStep(g, n / 2 * 2, p);
      Identity(g, p);
    }
  }

  /** On points of odd order, below 2^224: right for 0 and 1 and wrong for every other scalar. */
  lemma FinalExactBelow224<P(!new)>(g: Group<P>, s: nat, p: P, n: nat)
    requires IsAbelian(g) && p != g.zero && n % 2 == 1 && Mul(g, n, p) == g.zero && s < TWO224
    ensures Mul(g, Multiple(s), p) == Mul(g, s, p) <==> s <= 1
  {
    hide IsAbelian;
    hide Mul;
    hide BitLength;
    hide Multiple;
    hide Pow2;
    FinalIsExact(g, s, p);
    DivModUnique(s, 0x1_0000_0000_0000_0000_0000_0000_0000_0000_0000_0000_0000_0000_0000_0000, 0, s);
    var e := BitLength(LowLimbs(s));
    if Mul(g, Pow2(e), p) == g.zero {
      OddAndPowerOfTwo(g, e, n, p);
    }
  }

  lemma {:induction false} BitLengthBounds(t: nat)
    requires t > 0
    ensures BitLength(t) > 0 && Pow2(BitLength(t) - 1) <= t < Pow2(BitLength(t))
  {
    if t > 1 {
      BitLengthBounds(t / 2);
    } else {
      assert BitLength(1) == 1 + BitLength(0) && Pow2(1) == 2;
    }
  }

  /** The multiplier that has to kill the point is 2^len - 2^224 h = -2^len (2^(224 - len) h - 1). */
  lemma ExcessFactor(t: nat, h: nat) returns (e: nat, w: int)
    requires 0 < t < TWO224
    ensures e == BitLength(t) && 0 < e <= 224 && w == Pow2(224 - e) * h - 1
    ensures Pow2(e) - 0x1_0000_0000_0000_0000_0000_0000_0000_0000_0000_0000_0000_0000_0000_0000 * h == -(w * Pow2(e))
    ensures Pow2(224 - e) <= TWO223 && (Pow2(224 - e) == 1 <==> t >= TWO223)
  {
    hide Pow2;
    e := LengthRange(t);
    Pow2Of224();
    Pow2Add(224 - e, e);
    var f := Pow2(224 - e);
    w := f * h - 1;
    Regrouped(f, h, Pow2(e));
  }

  lemma Regrouped(f: int, h: int, p: int)
    ensures (f * h - 1) * p == (f * p) * h - p
  {
    assert (f * h) * p == (f * p) * h;
  }

  lemma LengthRange(t: nat) returns (e: nat)
    requires 0 < t < TWO224
    ensures e == BitLength(t) && 0 < e <= 224
    ensures Pow2(224 - e) <= TWO223 && (Pow2(224 - e) == 1 <==> t >= TWO223)
  {
    assert Pow2(0) == 1;
    hide Pow2;
    e := BitLength(t);
    BitLengthBounds(t);
    Pow2Of224();
    if e > 224 {
      Pow2Mono(224, e - 1);
    }
    Pow2Mono(224 - e, 223);
    if e < 224 {
      Pow2Mono(e, 223);
      Pow2Mono(1, 224 - e);
    }
  }

  lemma Pow2Of224()
    ensures Pow2(223) == 0x8000_0000_0000_0000_0000_0000_0000_0000_0000_0000_0000_0000_0000_0000
        && Pow2(224) == 0x1_0000_0000_0000_0000_0000_0000_0000_0000_0000_0000_0000_0000_0000_0000 && Pow2(1) == 2
  {
    hide Pow2;
    Pow2Bytes();
    Pow2Words();
    Pow2Add(56, 56);
    Pow2Add(112, 56);
    Pow2Add(168, 56);
    Pow2Add(223, 1);
  }

  /**
   On points of odd order n, for the scalars the caller has (reduced below n, and not a nonzero multiple of 2^224):
   right exactly for 0, 1 and the scalars from 3 * 2^223 up to 2^225, whose limb 4 stands in for the extra bit.
   */
  lemma FinalExactForOrder<P(!new)>(g: Group<P>, s: nat, p: P, n: nat)
    requires IsAbelian(g) && HasOrder(g, p, n) && n % 2 == 1 && n > 1 && s < n && (s == 0 || LowLimbs(s) != 0)
    ensures Mul(g, Multiple(s), p) == Mul(g, s, p) <==> s <= 1 || 3 * TWO223 <= s < 2 * TWO224
  {
    hide IsAbelian;
    hide Mul;
    hide BitLength;
    hide Multiple;
    hide Pow2;
    FinalIsExact(g, s, p);
    if s > 1 {
      var t, h := LowLimbs(s), HighLimb(s);
      var e, w := ExcessFactor(t, h);
      NegMultiple(g, w * Pow2(e), p);
      if h == 0 {
        NotKilled(g, e, p, n);
      } else {
        FactorRange(Pow2(224 - e), h, t, w, n);
        KilledFactor(g, w, e, p, n);
      }
    }
  }

  lemma NegMultiple<P(!new)>(g: Group<P>, m: int, p: P)
    requires IsAbelian(g)
    ensures Mul(g, -m, p) == g.zero <==> Mul(g, m, p) == g.zero
  {
    hide IsAbelian;
    hide Mul;
    MulNeg(g, m, p);
    Inverse(g, Mul(g, m, p));
    Inverse(g, g.zero);
    Identity(g, g.neg(g.zero));
    Identity(g, Mul(g, m, p));
  }

  /** No power of two kills a point of odd order above 1. */
  lemma NotKilled<P(!new)>(g: Group<P>, e: nat, p: P, n: nat)
    requires IsAbelian(g) && HasOrder(g, p, n) && n % 2 == 1 && n > 1
    ensures Mul(g, Pow2(e), p) != g.zero
  {
    hide IsAbelian;
    hide Mul;
    assert Mul(g, 1, p) != g.zero;
    MulOne(g, p);
    if Mul(g, Pow2(e), p) == g.zero {
      OddAndPowerOfTwo(g, e, n, p);
    }
  }

  /** w 2^e kills p exactly when w is 0, for w below the odd order. */
  lemma KilledFactor<P(!new)>(g: Group<P>, w: nat, e: nat, p: P, n: nat)
    requires IsAbelian(g) && HasOrder(g, p, n) && n % 2 == 1 && w < n
    ensures Mul(g, w * Pow2(e), p) == g.zero <==> w == 0
  {
    hide IsAbelian;
    hide Mul;
    MulZero(g, p);
    var q := Mul(g, w, p);
    MulMul(g, Pow2(e), w, p);
    MulMul(g, n, w, p);
    MulMul(g, w, n, p);
    MulOfZero(g, w);
    assert w * Pow2(e) == Pow2(e) * w && n * w == w * n;
    if w > 0 && Mul(g, w * Pow2(e), p) == g.zero {
      OddAndPowerOfTwo(g, e, n, q);
    }
  }

  lemma FactorRange(f: int, h: int, t: int, w: int, n: int)
    requires 0 < f <= TWO223 && h > 0 && 0 < t && w == f * h - 1
        && 0x1_0000_0000_0000_0000_0000_0000_0000_0000_0000_0000_0000_0000_0000_0000 * h + t < n
    ensures 0 <= w < n && (w == 0 <==> f == 1 && h == 1)
  {
    MulMono(h, 1, f);
    MulMono(h, f, 0x8000_0000_0000_0000_0000_0000_0000_0000_0000_0000_0000_0000_0000_0000);
    assert f * h == h * f;
    if f > 1 {
      MulMono(h, 2, f);
    }
  }

  /** The smallest scalar for which it goes wrong: 2 gives six times the point. */
  lemma TwoGivesSix()
    ensures Multiple(2) == 6
  {
    assert BitLength(2) == 1 + BitLength(1) && BitLength(1) == 1 + BitLength(0);
    assert Pow2(2) == 4;
  }
}
