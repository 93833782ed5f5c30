/**
 Signed recodings of a scalar: radix 16 for the fixed-base loop, sliding windows for the
 variable-base loop. Both write signed digits into a caller's array in place.
 */
module Recoding {
  import opened Numbers
  import opened Scalars

  type i8 = x: int | -128 <= x < 128

  // ---------- plain digits of the limbs ----------

  /** Digits are taken four bits or one bit at a time: `v & 15, v >>= 4` and `v & 1, v >>= 1`. */
  predicate Radix(b: int) {
    b == 2 || b == 16
  }

  function Low(b: int, v: nat): nat
    requires Radix(b)
  {
    if b == 2 then v % 2 else v % 16
  }

  function Shift(b: int, v: nat): nat
    requires Radix(b)
  {
    if b == 2 then v / 2 else v / 16
  }

  /** The low `k` base-`base` digits of `v`, least significant first. */
  function Digits(base: int, v: nat, k: nat): (d: seq<nat>)
    requires Radix(base)
    ensures |d| == k && forall i :: 0 <= i < k ==> d[i] < base
  {
    if k == 0 then [] else [Low(base, v)] + Digits(base, Shift(base, v), k - 1)
  }

  lemma {:induction false} DigitsValue(base: int, v: nat, k: nat)
    requires Radix(base) && v < Pow(base, k)
    ensures Eval(base, Digits(base, v, k)) == v
  {
    if k > 0 {
      DigitsValue(base, Shift(base, v), k - 1);
      assert Digits(base, v, k)[1..] == Digits(base, Shift(base, v), k - 1);
    }
  }

  /** The digits of limbs i..4 in a row: `k` from each of the first four, `last` from the fifth. */
  function LimbDigits(base: int, s: seq<nat>, i: nat, k: nat, last: nat): (d: seq<nat>)
    requires Radix(base) && |s| == 5 && i <= 5
    ensures forall j :: 0 <= j < |d| ==> d[j] < base
    decreases 5 - i
  {
    if i == 5 then [] else
    Digits(base, s[i], if i == 4 then last else k) + LimbDigits(base, s, i + 1, k, last)
  }

  lemma {:induction false} LimbDigitsValue(base: int, s: seq<nat>, i: nat, k: nat, last: nat)
    requires Radix(base) && |s| == 5 && i <= 5 && Pow(base, k) == 0x100_0000_0000_0000
        && Pow(base, last) == 0x1_0000_0000
    requires Limbs(s, 0x1_0000_0000)
    ensures Eval(base, LimbDigits(base, s, i, k, last)) == Eval(0x100_0000_0000_0000, s[i..])
    decreases 5 - i
  {
    if i < 5 {
      var m := if i == 4 then last else k;
      var d := Digits(base, s[i], m);
      DigitsValue(base, s[i], m);
      LimbDigitsValue(base, s, i + 1, k, last);
      EvalAppend(base, d, LimbDigits(base, s, i + 1, k, last));
      assert s[i..][1..] == s[i + 1..];
    }
  }

  /** The inner extraction loop: `m` digits of `v` written from position `n` on. */
  method PutDigits(r: array<i8>, n: nat, base: int, val: nat, m: nat)
    requires Radix(base) && n + m <= r.Length
    modifies r
    ensures r[..n + m] == old(r[..n]) + Digits(base, val, m)
  {
    var v: nat, j: nat := val, 0;
    while j < m
      invariant 0 <= j <= m
      invariant r[..n + j] + Digits(base, v, m - j) == old(r[..n]) + Digits(base, val, m)
    {
      ghost var d: seq<int> := r[..n + j];
      r[n + j] := Low(base, v);
      assert r[..n + j + 1] == d + [Low(base, v)];
      v := Shift(base, v);
      j := j + 1;
    }
    assert r[..n + m] + [] == r[..n + m];
  }

  lemma LimbDigitsStep(d: seq<int>, base: int, s: seq<nat>, i: nat, k: nat, last: nat)
    requires Radix(base) && |s| == 5 && i < 5
    ensures d + LimbDigits(base, s, i, k, last)
            == (d + Digits(base, s[i], if i == 4 then last else k)) + LimbDigits(base, s, i + 1, k, last)
    ensures |LimbDigits(base, s, i, k, last)| == (if i == 4 then last else k) + |LimbDigits(base, s, i + 1, k, last)|
  {
  }

  lemma LimbDigitsEnd(d: seq<int>, base: int, s: seq<nat>, k: nat, last: nat)
    requires Radix(base) && |s| == 5
    ensures d + LimbDigits(base, s, 5, k, last) == d && |LimbDigits(base, s, 5, k, last)| == 0
  {
  }

  /** The plain digits of a scalar: `k` from each of four limbs, `last` from the fifth. */
  method PlainDigits(r: array<i8>, s: array<u64>, base: int, k: nat, last: nat)
    requires s.Length == 5 && Radix(base)
    requires r.Length == |LimbDigits(base, s[..], 0, k, last)|
    modifies r
    ensures r[..] == LimbDigits(base, s[..], 0, k, last)
  {
    hide LimbDigits;
    hide Digits;
    var n: nat, i: nat := 0, 0;
    ghost var limbs: seq<nat> := s[..];
    ghost var all := LimbDigits(base, limbs, 0, k, last);
    assert r[..0] == [];
    while i < 5
      invariant 0 <= i <= 5 && n + |LimbDigits(base, limbs, i, k, last)| == r.Length
      invariant r[..n] + LimbDigits(base, limbs, i, k, last) == all
    {
      var m := if i == 4 then last else k;
      LimbDigitsStep(r[..n], base, limbs, i, k, last);
      PutDigits(r, n, base, s[i], m);
      n := n + m;
      i := i + 1;
    }
    LimbDigitsEnd(r[..n], base, limbs, k, last);
    assert r[..n] == r[..];
  }

  lemma LimbDigitsLength(base: int, s: seq<nat>, k: nat, last: nat)
    requires |s| == 5 && Radix(base)
    ensures |LimbDigits(base, s, 0, k, last)| == 4 * k + last
  {
    var d1, d2 := LimbDigits(base, s, 1, k, last), LimbDigits(base, s, 2, k, last);
    var d3, d4 := LimbDigits(base, s, 3, k, last), LimbDigits(base, s, 4, k, last);
    assert |d4| == last && |d3| == k + |d4| && |d2| == k + |d3| && |d1| == k + |d2|;
  }

  lemma LimbDigitsAll(base: int, s: seq<nat>, k: nat, last: nat)
    requires Limbs(s, 0x1_0000_0000)
    requires (base == 16 && k == 14 && last == 8) || (base == 2 && k == 56 && last == 32)
    ensures Eval(base, LimbDigits(base, s, 0, k, last)) == Val(s)
  {
    LimbPowers();
    LimbDigitsValue(base, s, 0, k, last);
    ValIsEval(s);
    assert s[0..] == s;
  }

  lemma LimbPowers()
    ensures Pow(16, 14) == 0x100_0000_0000_0000 == Pow(2, 56) && Pow(16, 8) == 0x1_0000_0000 == Pow(2, 32)
  {
    assert Pow(2, 16) == 0x1_0000 && Pow(2, 8) == 0x100;
    PowAdd(2, 16, 16);
    PowAdd(2, 16, 8);
    PowAdd(2, 32, 24);
  }

  /** The number held by the digits with a carry of `c` into position `i` still to be added. */
  ghost function Pending(d: seq<int>, i: nat, c: int): int {
    Eval(16, d) + Pow(16, i) * c
  }

  /** One pass of the carry loop: digit i becomes signed and the excess moves up. */
  method MakeSigned(r: array<i8>, i: nat, carry: i8) returns (c: i8)
    requires r.Length == 64 && i < 63 && 0 <= carry <= 1
    requires 0 <= r[i] && r[i] + carry <= 16 && 0 <= r[i + 1] < 16
    modifies r
    ensures 0 <= c <= 1 && -8 <= r[i] < 8
    ensures old(r[i + 1]) <= r[i + 1] && r[i + 1] + c <= old(r[i + 1]) + 1
    ensures forall k :: 0 <= k < 64 && k != i && k != i + 1 ==> r[k] == old(r[k])
    ensures Pending(r[..], i + 1, c) == old(Pending(r[..], i, carry))
  {
    ghost var d: seq<int> := r[..];
    r[i] := r[i] + carry;
    r[i + 1] := r[i + 1] + r[i] / 16;
    r[i] := r[i] % 16;
    c := r[i] / 8;
    r[i] := r[i] - c * 16;
    CarryStep(d, i, carry, c, r[i], r[i + 1]);
    assert r[..] == d[i := r[i]][i + 1 := r[i + 1]];
  }

  lemma CarryStep(d: seq<int>, i: nat, c: int, c': int, x: int, y: int)
    requires i + 1 < |d| && d[i] + c + 16 * d[i + 1] == x + 16 * y + 16 * c'
    ensures Pending(d, i, c) == Pending(d[i := x][i + 1 := y], i + 1, c')
  {
    EvalUpdate(16, d, i, x);
    EvalUpdate(16, d[i := x], i + 1, y);
    var p := Pow(16, i);
    assert Pow(16, i + 1) == 16 * p;
    assert p * (x - d[i]) + (16 * p) * (y - d[i + 1]) + (16 * p) * c' - p * c
      == p * (x - d[i] + 16 * (y - d[i + 1]) + 16 * c' - c);
  }

  /** contract256_window4_modm: 64 signed digits in [-8, 8) with the scalar's value. */
  method Window4(r: array<i8>, s: array<u64>)
    requires r.Length == 64 && s.Length == 5
    requires Limbs(s[..], 0x1_0000_0000)
    modifies r
    ensures Eval(16, r[..]) == Val(s[..])
    ensures forall k :: 0 <= k < 63 ==> -8 <= r[k] < 8
    ensures 0 <= r[63] <= 16
    ensures Val(s[..]) < TWO255 ==> r[63] <= 8
  {
    hide Pending;
    hide Val;
    LimbDigitsLength(16, s[..], 14, 8);
    PlainDigits(r, s, 16, 14, 8);
    LimbDigitsAll(16, s[..], 14, 8);
    ghost var top := r[63];
    NoCarry(r[..]);
    TopNibble(r[..]);
    var carry: i8, i: nat := 0, 0;
    while i < 63
      invariant 0 <= i <= 63 && 0 <= carry <= 1
      invariant forall k :: 0 <= k < i ==> -8 <= r[k] < 8
      invariant forall k :: i < k < 64 ==> 0 <= r[k] < 16
      invariant 0 <= r[i] && r[i] + carry <= 16
      invariant i < 63 ==> r[63] == top
      invariant i == 63 ==> r[63] + carry <= top + 1
      invariant Pending(r[..], i, carry) == Val(s[..])
    {
      carry := MakeSigned(r, i, carry);
      i := i + 1;
    }
    ghost var d: seq<int> := r[..];
    r[i] := r[i] + carry;
    DropCarry(d, i, carry);
    assert r[..] == d[i := d[i] + carry];
  }

  lemma NoCarry(d: seq<int>)
    ensures Pending(d, 0, 0) == Eval(16, d)
  {
  }

  lemma DropCarry(d: seq<int>, i: nat, c: int)
    requires i < |d|
    ensures Eval(16, d[i := d[i] + c]) == Pending(d, i, c)
  {
    EvalUpdate(16, d, i, d[i] + c);
  }

  /** The top nibble of a number below 2^255 is below 8. */
  lemma TopNibble(d: seq<int>)
    requires |d| == 64 && forall k :: 0 <= k < 64 ==> 0 <= d[k] < 16
    ensures Eval(16, d) < TWO255 ==> d[63] < 8
  {
    EvalSplit(16, d, 63);
    EvalBound(16, d[..63]);
    EvalOne(16, d[63]);
    assert d[63..] == [d[63]];
    Pow16Of63();
    if d[63] >= 8 {
      MulMono(Pow(16, 63), 8, d[63]);
    }
  }

  // ---------- sliding windows ----------

  /** Positions from `from` on still hold plain bits. */
  predicate BitsFrom(d: seq<int>, from: nat) {
    forall k :: from <= k < |d| ==> d[k] == 0 || d[k] == 1
  }

  /** Every digit below `j` is zero, or odd and at most `m` in magnitude. */
  predicate OddBelow(d: seq<int>, j: nat, m: int) {
    forall k :: 0 <= k < j && k < |d| ==> d[k] == 0 || (d[k] % 2 == 1 && -m <= d[k] <= m)
  }

  predicate ZeroBetween(d: seq<int>, lo: int, hi: int) {
    forall t :: lo <= t < hi && 0 <= t < |d| ==> d[t] == 0
  }

  /** A nonzero digit below `j` is followed by at least w - 1 zeros. */
  predicate SpacedBelow(d: seq<int>, j: nat, w: nat) {
    forall k :: 0 <= k < j && k < |d| && d[k] != 0 ==> ZeroBetween(d, k + 1, k + w)
  }

  function Abs(x: int): nat {
    if x < 0 then -x else x
  }

  lemma {:induction false} AllOnes(d: seq<int>)
    requires forall k :: 0 <= k < |d| ==> d[k] == 1
    ensures Eval(2, d) == Pow(2, |d|) - 1
  {
    if |d| > 0 {
      AllOnes(d[1..]);
    }
  }

  lemma LeadingDigit(d: seq<int>, j: nat)
    requires j < |d| && ZeroBetween(d, j + 1, |d|)
    ensures Eval(2, d) == Eval(2, d[..j]) + Pow(2, j) * d[j]
  {
    hide Eval;
    hide Pow;
    EvalSplit(2, d, j);
    LeadingOnly(d[j..]);
  }

  lemma LeadingOnly(t: seq<int>)
    requires |t| > 0 && forall k :: 0 < k < |t| ==> t[k] == 0
    ensures Eval(2, t) == t[0]
  {
    EvalZeros(2, t[1..]);
  }

  lemma OnesAbove(d: seq<int>, p: nat)
    requires p < |d| && forall k :: p <= k < |d| ==> d[k] == 1
    ensures Eval(2, d) == Eval(2, d[..p]) + Pow2(|d|) - Pow2(p)
  {
    hide Eval;
    hide Pow;
    EvalSplit(2, d, p);
    AllOnes(d[p..]);
    PowAdd(2, p, |d| - p);
    PowIsPow2(p);
    PowIsPow2(|d|);
  }

  /** If a positive digit stands at j, zeros follow up to p, and ones fill p..255, the number is too big. */
  lemma NoRoomForCarry(d: seq<int>, j: nat, p: nat)
    requires |d| == 256 && j < p < 256
    requires d[j] > 0 && ZeroBetween(d, j + 1, p)
    requires forall k :: p <= k < 256 ==> d[k] == 1
    requires 2 * Abs(Eval(2, d[..j])) < Pow2(j)
    ensures Eval(2, d) >= TWO255
  {
    OnesAbove(d, p);
    LeadingDigit(d[..p], j);
    assert d[..p][..j] == d[..j];
    PowIsPow2(j);
    Pow2Of256();
    Pow2Mono(p, 255);
    MulMono(Pow2(j), 1, d[j]);
  }

  /** The carry of the sliding window: add one at position p, rippling through ones up to the next zero. */
  method Ripple(r: array<i8>, p: nat)
    requires r.Length == 256 && p < 256
    requires BitsFrom(r[..], p)
    requires exists z :: p <= z < 256 && r[z] != 1
    modifies r
    ensures r[..p] == old(r[..p])
    ensures BitsFrom(r[..], p)
    ensures old(r[p]) == 1 ==> r[p] == 0
    ensures Eval(2, r[..]) == old(Eval(2, r[..])) + Pow(2, p)
  {
    ghost var z :| p <= z < 256 && r[z] != 1;
    var k := p;
    ghost var total := Eval(2, r[..]) + Pow(2, p);
    while k < 256
      invariant p <= k <= z
      invariant r[..p] == old(r[..p]) && r[k..] == old(r[k..])
      invariant forall t :: p <= t < k ==> r[t] == 0
      invariant p < k ==> old(r[p]) == 1
      invariant Eval(2, r[..]) + Pow(2, k) == total
    {
      ghost var d: seq<int> := r[..];
      assert r[k] == old(r[..])[k] == old(r[k..])[0];
      assert r[k..][z - k] == old(r[z]);
      if r[k] == 0 {
        r[k] := 1;
        EvalUpdate(2, d, k, 1);
        assert r[..] == d[k := 1];
        break;
      }
      r[k] := 0;
      EvalUpdate(2, d, k, 0);
      assert r[..] == d[k := 0];
      k := k + 1;
    }
  }

  lemma WindowChoice(w: nat, m: int, b: nat, x: int)
    requires 2 <= w <= 7 && m == Pow2(w - 1) - 1 && 1 <= b
    requires x % 2 == 1 && -m <= x <= m && x + Pow2(b) > m
    ensures b < w ==> x > 0 && x - Pow2(b) >= -m
    ensures b >= w ==> x - Pow2(b) < -m
    ensures (x - Pow2(b)) % 2 == 1
  {
    hide Pow2;
    Pow2Words();
    Pow2Add(b - 1, 1);
    Pow2Add(w - 1, 1);
    if b < w {
      Pow2Mono(b, w - 1);
    } else {
      Pow2Mono(w, b);
    }
  }

  /** The state of the window being grown at position j, with b - 1 positions above it cleared. */
  ghost predicate Growing(d: seq<int>, j: nat, b: nat, m: int) {
    && |d| == 256 && j < 256
    && BitsFrom(d, j + 1)
    && d[j] % 2 == 1 && -m <= d[j] <= m
    && ZeroBetween(d, j + 1, j + b)
    && 2 * Abs(Eval(2, d[..j])) < Pow2(j)
    && Eval(2, d) < TWO255
  }

  lemma GrowingDigits(d: seq<int>, j: nat, b: nat, m: int)
    requires Growing(d, j, b, m) && 1 <= b && j + b < 256
    ensures d[j] % 2 == 1 && -m <= d[j] <= m && 0 <= d[j + b] <= 1
  {
    hide Eval;
    hide Pow2;
  }

  /** One turn of the inner loop: absorb, subtract and carry, or stop. */
  method WindowStep(r: array<i8>, j: nat, b: nat, ghost w: nat, m: int) returns (stop: bool)
    requires r.Length == 256 && j + b < 256 && 1 <= b <= 6
    requires 2 <= w <= 7 && m == Pow2(w - 1) - 1
    requires Growing(r[..], j, b, m)
    modifies r
    ensures r[..j] == old(r[..j])
    ensures Eval(2, r[..]) == old(Eval(2, r[..]))
    ensures Growing(r[..], j, if stop then b else b + 1, m)
    ensures stop ==> b >= w
  {
    hide Eval;
    hide BitsFrom;
    stop := false;
    SmallPowers(w, b);
    GrowingDigits(r[..], j, b, m);
    var weight := Pow2(b);
    hide Growing;
    hide Pow2;
    if r[j] + r[j + b] * weight <= m {
      Absorb(r, j, b, m, weight);
    } else if r[j] - r[j + b] * weight >= -m {
      WindowChoice(w, m, b, r[j]);
      Borrow(r, j, b, m, weight);
    } else if r[j + b] != 0 {
      WindowChoice(w, m, b, r[j]);
      stop := true;
    }
  }

  method Borrow(r: array<i8>, j: nat, b: nat, m: int, weight: int)
    requires r.Length == 256 && j + b < 256 && 1 <= b <= 6 && 1 <= m <= 63
    requires weight == Pow2(b) && 2 <= weight <= 64 && weight % 2 == 0
    requires Growing(r[..], j, b, m) && r[j] > 0 && r[j + b] == 1 && r[j] - weight >= -m
    modifies r
    ensures r[..j] == old(r[..j])
    ensures Eval(2, r[..]) == old(Eval(2, r[..]))
    ensures Growing(r[..], j, b + 1, m)
  {
    hide Eval;
    hide Pow;
    hide Pow2;
    ghost var d: seq<int> := r[..];
    CarryHasRoom(d, j, b, m);
    ghost var z :| j + b <= z < 256 && d[z] != 1;
    r[j] := r[j] - r[j + b] * weight;
    assert r[..] == d[j := d[j] - weight] && r[z] == d[z];
    BorrowStep(d, j, b, weight);
    ghost var e: seq<int> := r[..j + b];
    Ripple(r, j + b);
    KeepBelow(r[..], e, d, j, b);
  }

  lemma KeepBelow(r: seq<int>, e: seq<int>, d: seq<int>, j: nat, b: nat)
    requires |r| == 256 && |d| == 256 && 1 <= b && j + b < 256 && r[..j + b] == e && |e| == j + b
    requires e == d[j := e[j]][..j + b]
    ensures r[..j] == d[..j] && forall t :: j < t < j + b ==> r[t] == d[t]
    ensures r[j] == e[j]
  {
    assert forall t :: 0 <= t < j + b ==> r[t] == e[t];
  }

  method Absorb(r: array<i8>, j: nat, b: nat, m: int, weight: int)
    requires r.Length == 256 && j + b < 256 && 1 <= b <= 6 && 1 <= m <= 63
    requires weight == Pow2(b) && 2 <= weight <= 64 && weight % 2 == 0
    requires Growing(r[..], j, b, m) && r[j] + r[j + b] * weight <= m
    modifies r
    ensures r[..j] == old(r[..j])
    ensures Eval(2, r[..]) == old(Eval(2, r[..]))
    ensures Growing(r[..], j, b + 1, m)
  {
    hide Eval;
    hide Pow2;
    ghost var d: seq<int> := r[..];
    AbsorbStep(d, j, b, weight);
    r[j] := r[j] + r[j + b] * weight;
    r[j + b] := 0;
    assert r[..] == d[j := d[j] + d[j + b] * weight][j + b := 0];
    assert r[..j] == d[..j];
  }

  lemma CarryHasRoom(d: seq<int>, j: nat, b: nat, m: int)
    requires 1 <= b && j + b < 256 && Growing(d, j, b, m) && d[j] > 0
    ensures exists z :: j + b <= z < 256 && d[z] != 1
  {
    if forall z :: j + b <= z < 256 ==> d[z] == 1 {
      NoRoomForCarry(d, j, j + b);
    }
  }

  lemma SmallPowers(w: nat, b: nat)
    requires 2 <= w <= 7 && 1 <= b <= 6
    ensures 1 <= Pow2(w - 1) - 1 <= 63
    ensures 2 <= Pow2(b) <= 64 && Pow2(b) % 2 == 0
  {
    assert Pow2(6) == 64;
    Pow2Mono(w - 1, 6);
    Pow2Mono(1, w - 1);
    Pow2Mono(b, 6);
    assert Pow2(b) == 2 * Pow2(b - 1);
  }

  /** Moving the bit at j + b down into the digit at j. */
  lemma AbsorbStep(d: seq<int>, j: nat, b: nat, q: int)
    requires 1 <= b && j + b < |d| && q == Pow2(b)
    ensures Eval(2, d[j := d[j] + d[j + b] * q][j + b := 0]) == Eval(2, d)
  {
    hide Eval;
    hide Pow;
    var x := d[j] + d[j + b] * q;
    EvalUpdate(2, d, j, x);
    EvalUpdate(2, d[j := x], j + b, 0);
    PowAdd(2, j, b);
    PowIsPow2(b);
  }

  /** Lowering the digit at j by 2^b leaves 2^(j + b) to be carried. */
  lemma BorrowStep(d: seq<int>, j: nat, b: nat, q: int)
    requires j < |d| && q == Pow2(b)
    ensures Eval(2, d[j := d[j] - q]) == Eval(2, d) - Pow(2, j + b)
  {
    hide Eval;
    hide Pow;
    EvalUpdate(2, d, j, d[j] - q);
    PowAdd(2, j, b);
    PowIsPow2(b);
  }

  /** The finished part of a recoding: positions below j final, the next nonzero one at e or later. */
  ghost predicate Recoded(d: seq<int>, j: nat, e: nat, w: nat, m: int) {
    && |d| == 256 && j <= 256
    && BitsFrom(d, j)
    && OddBelow(d, j, m)
    && SpacedBelow(d, j, w)
    && 2 * Abs(Eval(2, d[..j])) < Pow2(e)
    && ZeroBetween(d, j, e)
  }

  /** contract256_slidingwindow_modm for 2 <= windowsize <= 7. */
  method SlidingWindow(r: array<i8>, s: array<u64>, windowsize: nat)
    requires r.Length == 256 && s.Length == 5 && 2 <= windowsize <= 7
    requires Limbs(s[..], 0x1_0000_0000) && Val(s[..]) < TWO255
    modifies r
    ensures Eval(2, r[..]) == Val(s[..])
    ensures OddBelow(r[..], 256, Pow2(windowsize - 1) - 1)
    ensures SpacedBelow(r[..], 256, windowsize)
  {
    hide Val;
    hide Recoded;
    hide Growing;
    var m := Pow2(windowsize - 1) - 1;
    LimbDigitsLength(2, s[..], 56, 32);
    PlainDigits(r, s, 2, 56, 32);
    LimbDigitsAll(2, s[..], 56, 32);
    PlainIsRecoded(r[..], windowsize, m);
    ghost var e: nat := 0;
    var j: nat := 0;
    while j < 256
      invariant 0 <= j <= 256
      invariant Recoded(r[..], j, e, windowsize, m)
      invariant Eval(2, r[..]) == Val(s[..])
    {
      ghost var d: seq<int> := r[..];
      if r[j] == 0 {
        SkipZero(d, j, e, windowsize, m);
      } else {
        StartWindow(d, j, e, windowsize, m);
        var b: nat := 1;
        var stop := false;
        while !stop && b < 256 - j && b <= 6
          invariant 1 <= b <= 7 && j + b <= 256
          invariant Growing(r[..], j, b, m)
          invariant r[..j] == d[..j]
          invariant Eval(2, r[..]) == Val(s[..])
          invariant stop ==> b >= windowsize
          decreases 7 - b, !stop
        {
          stop := WindowStep(r, j, b, windowsize, m);
          b := if stop then b else b + 1;
        }
        FinishWindow(d, r[..], j, b, e, windowsize, m);
        e := j + windowsize;
      }
      j := j + 1;
    }
    AllRecoded(r[..], e, windowsize, m);
  }

  lemma PlainIsRecoded(d: seq<int>, w: nat, m: int)
    requires |d| == 256 && forall k :: 0 <= k < 256 ==> 0 <= d[k] < 2
    ensures Recoded(d, 0, 0, w, m)
  {
  }

  lemma SkipZero(d: seq<int>, j: nat, e: nat, w: nat, m: int)
    requires j < 256 && Recoded(d, j, e, w, m) && d[j] == 0
    ensures Recoded(d, j + 1, e, w, m)
  {
    LeadingDigit(d[..j + 1], j);
    assert d[..j + 1][..j] == d[..j];
  }

  lemma StartWindow(d: seq<int>, j: nat, e: nat, w: nat, m: int)
    requires 2 <= w <= 7 && m == Pow2(w - 1) - 1
    requires j < 256 && Recoded(d, j, e, w, m) && d[j] != 0 && Eval(2, d) < TWO255
    ensures Growing(d, j, 1, m)
  {
    SmallPowers(w, 1);
    Pow2Mono(e, j);
  }

  lemma FinishWindow(d: seq<int>, r: seq<int>, j: nat, b: nat, e: nat, w: nat, m: int)
    requires 2 <= w <= 7 && m == Pow2(w - 1) - 1
    requires j < 256 && Recoded(d, j, e, w, m) && d[j] != 0
    requires Growing(r, j, b, m) && r[..j] == d[..j]
    requires b >= w || j + b == 256
    ensures Recoded(r, j + 1, j + w, w, m)
  {
    forall k | 0 <= k < j && r[k] != 0
      ensures ZeroBetween(r, k + 1, k + w)
    {
      assert r[k] == d[..j][k] == d[k];
      assert ZeroBetween(d, k + 1, k + w);
      assert forall t :: k < t < j ==> r[t] == d[..j][t];
      assert !(k < j < k + w);
    }
    assert forall k :: 0 <= k < j ==> r[k] == d[..j][k];
    LeadingDigit(r[..j + 1], j);
    assert r[..j + 1][..j] == d[..j];
    PowIsPow2(j);
    Pow2Add(w - 1, j);
    assert Pow2(j + w) == 2 * Pow2(w - 1 + j);
    WindowBound(Eval(2, d[..j]), Pow2(j), r[j], Pow2(w - 1));
  }

  lemma WindowBound(low: int, p: nat, x: int, q: nat)
    requires 2 * Abs(low) < p && -(q - 1) <= x <= q - 1
    ensures 2 * Abs(low + p * x) < 2 * (q * p)
  {
    MulMono(p, x, q - 1);
    MulMono(p, -(q - 1), x);
    assert p * (q - 1) == q * p - p;
    assert p * -(q - 1) == p - q * p;
  }

  lemma AllRecoded(d: seq<int>, e: nat, w: nat, m: int)
    requires Recoded(d, 256, e, w, m)
    ensures OddBelow(d, 256, m) && SpacedBelow(d, 256, w)
  {
  }
}
