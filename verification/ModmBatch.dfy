/**
 The limb-truncated comparisons and subtraction used while a batch is reduced
 (the *_batch functions of modm-donna-64bit.h). `limbsize` is the index of the highest limb looked at;
 each `if limbsize >= k` below is one case label of a switch that falls through.
 */
module ModmBatch {
  import opened Numbers
  import opened Scalars

  /** The number in limbs 0..n. */
  function Trunc(s: seq<int>, n: nat): int
    requires |s| == 5 && n <= 4
  {
    match n
    case 0 => s[0]
    case 1 => s[0] + 0x100_0000_0000_0000 * s[1]
    case 2 => s[0] + 0x100_0000_0000_0000 * s[1] + 0x1_0000_0000_0000_0000_0000_0000_0000 * s[2]
    case 3 => s[0] + 0x100_0000_0000_0000 * s[1] + 0x1_0000_0000_0000_0000_0000_0000_0000 * s[2]
        + 0x100_0000_0000_0000_0000_0000_0000_0000_0000_0000_0000 * s[3]
    case 4 => Val(s)
  }

  /** 2^(56 (n + 1)). */
  function LimbBound(n: nat): int
    requires n <= 4
  {
    match n
    case 0 => 0x100_0000_0000_0000
    case 1 => 0x1_0000_0000_0000_0000_0000_0000_0000
    case 2 => 0x100_0000_0000_0000_0000_0000_0000_0000_0000_0000_0000
    case 3 => TWO224
    case 4 => 0x100_0000_0000_0000_0000_0000_0000_0000_0000_0000_0000_0000_0000_0000_0000_0000_0000_0000
  }

  /** A number below 2^(56 (n + 1)) is the same with its higher limbs ignored. */
  lemma TruncExact(s: seq<int>, n: nat)
    requires Limbs(s, 0x100_0000_0000_0000) && n <= 4
    ensures 0 <= Trunc(s, n) < LimbBound(n)
    ensures Val(s) < LimbBound(n) ==> Trunc(s, n) == Val(s) && forall i :: n < i < 5 ==> s[i] == 0
    ensures n > 0 && s[n] == 0 ==> Trunc(s, n) == Trunc(s, n - 1) < LimbBound(n - 1)
    ensures n > 0 && s[n] != 0 ==> Trunc(s, n) >= LimbBound(n - 1)
    ensures n == 0 && s[n] == 0 ==> Trunc(s, n) == 0
  {
  }

  /** Comparing one more limb on top of a finished comparison. */
  lemma CompareLimb(a: seq<int>, b: seq<int>, n: nat)
    requires Limbs(a, 0x100_0000_0000_0000) && Limbs(b, 0x100_0000_0000_0000) && 0 < n <= 4
    ensures a[n] - b[n] - (if Trunc(a, n - 1) < Trunc(b, n - 1) then 1 else 0) < 0 <==> Trunc(a, n) < Trunc(b, n)
  {
    TruncExact(a, n - 1);
    TruncExact(b, n - 1);
  }

  /** `t = (x - y) - carry; carry = t >> 63`. */
  function SignBit(x: u64, y: u64, carry: u64): (c: u64)
    ensures x < 0x100_0000_0000_0000 && y < 0x100_0000_0000_0000 && carry <= 1 ==> c == if x - y - carry < 0 then 1
        else 0
  {
    ((x as int - y - carry) % 0x1_0000_0000_0000_0000) / 0x8000_0000_0000_0000
  }

  /** lt256_modm_batch: is a < b, looking at limbs 0..limbsize. */
  method LessThan(a: array<u64>, b: array<u64>, limbsize: nat) returns (r: bool)
    requires a.Length == 5 && b.Length == 5 && limbsize <= 4
    requires Limbs(a[..], 0x100_0000_0000_0000) && Limbs(b[..], 0x100_0000_0000_0000)
    ensures r == (Trunc(a[..], limbsize) < Trunc(b[..], limbsize))
  {
    hide Trunc;
    var i, carry: u64 := 0, 0;
    ghost var x: seq<int>, y: seq<int> := a[..], b[..];
    CompareFirst(x, y);
    if limbsize >= 4 {
      carry := SignBit(a[i], b[i], carry); i := i + 1;
    }
    if limbsize >= 3 {
      if i > 0 { CompareLimb(x, y, i); }
      carry := SignBit(a[i], b[i], carry); i := i + 1;
    }
    if limbsize >= 2 {
      if i > 0 { CompareLimb(x, y, i); }
      carry := SignBit(a[i], b[i], carry); i := i + 1;
    }
    if limbsize >= 1 {
      if i > 0 { CompareLimb(x, y, i); }
      carry := SignBit(a[i], b[i], carry); i := i + 1;
    }
    if i > 0 { CompareLimb(x, y, i); }
    carry := SignBit(a[i], b[i], carry);
    r := carry != 0;
  }

  lemma CompareFirst(a: seq<int>, b: seq<int>)
    requires |a| == 5 && |b| == 5
    ensures a[0] - b[0] < 0 <==> Trunc(a, 0) < Trunc(b, 0)
  {
  }

  /** lte256_modm_batch: is a <= b, computed as not (b < a). */
  method AtMost(a: array<u64>, b: array<u64>, limbsize: nat) returns (r: bool)
    requires a.Length == 5 && b.Length == 5 && limbsize <= 4
    requires Limbs(a[..], 0x100_0000_0000_0000) && Limbs(b[..], 0x100_0000_0000_0000)
    ensures r == (Trunc(a[..], limbsize) <= Trunc(b[..], limbsize))
  {
    hide Trunc;
    var i, carry: u64 := 0, 0;
    ghost var x: seq<int>, y: seq<int> := a[..], b[..];
    CompareFirst(y, x);
    if limbsize >= 4 {
      carry := SignBit(b[i], a[i], carry); i := i + 1;
    }
    if limbsize >= 3 {
      if i > 0 { CompareLimb(y, x, i); }
      carry := SignBit(b[i], a[i], carry); i := i + 1;
    }
    if limbsize >= 2 {
      if i > 0 { CompareLimb(y, x, i); }
      carry := SignBit(b[i], a[i], carry); i := i + 1;
    }
    if limbsize >= 1 {
      if i > 0 { CompareLimb(y, x, i); }
      carry := SignBit(b[i], a[i], carry); i := i + 1;
    }
    if i > 0 { CompareLimb(y, x, i); }
    carry := SignBit(b[i], a[i], carry);
    r := carry == 0;
  }

  /** What the borrows of the limbs below n add up to. */
  ghost predicate Partial(a: seq<int>, b: seq<int>, out: seq<int>, n: nat, carry: int) {
    && |a| == 5 && |b| == 5 && |out| == 5 && n <= 5 && 0 <= carry <= 1
    && (forall i :: 0 <= i < n ==> 0 <= out[i] < 0x100_0000_0000_0000)
    && (forall i :: n <= i < 5 ==> out[i] == a[i])
    && (n == 0 ==> carry == 0)
    && (n > 0 ==> Trunc(out, n - 1) == Trunc(a, n - 1) - Trunc(b, n - 1) + carry * LimbBound(n - 1))
  }

  lemma SubStep(a: seq<int>, b: seq<int>, out: seq<int>, n: nat, carry: int, t: int, c: int)
    requires Limbs(a, 0x100_0000_0000_0000) && Limbs(b, 0x100_0000_0000_0000) && n <= 4
    requires Partial(a, b, out, n, carry)
    requires 0 <= t < 0x100_0000_0000_0000 && t == a[n] - b[n] - carry + c * 0x100_0000_0000_0000 && 0 <= c <= 1
    ensures Partial(a, b, out[n := t], n + 1, c)
  {
    var o := out[n := t];
    assert forall i :: 0 <= i < n ==> o[i] == out[i];
    assert n > 0 ==> Trunc(o, n - 1) == Trunc(out, n - 1);
  }

  lemma TruncTop(s: seq<int>, n: nat)
    requires |s| == 5 && 0 < n <= 4
    ensures Trunc(s, n) == Trunc(s, n - 1) + LimbBound(n - 1) * s[n]
  {
  }

  lemma TruncZeros(s: seq<int>, n: nat)
    requires |s| == 5 && n <= 4 && forall i :: n < i < 5 ==> s[i] == 0
    ensures Val(s) == Trunc(s, n)
  {
  }

  lemma TopDigit(w: int, o: int, x: int, y: int, t: int, c: int, p: int, q: int)
    requires w > 0 && 0 <= o < w && o == x - y + c * w && t == p - q - c
    ensures o + w * t == (x + w * p) - (y + w * q)
    ensures (y + w * q) <= (x + w * p) ==> t >= 0
  {
    assert w * t == w * p - w * q - c * w;
    if t < 0 {
      MulMono(w, t, -1);
    }
  }

  /** The last limb is not masked; it is in range because a is at least b. */
  lemma SubLast(a: seq<int>, b: seq<int>, out: seq<int>, n: nat, carry: int)
    requires Limbs(a, 0x100_0000_0000_0000) && Limbs(b, 0x100_0000_0000_0000) && n <= 4 && Partial(a, b, out, n, carry)
    requires Val(a) < LimbBound(n) && Val(b) <= Val(a)
    ensures 0 <= a[n] - b[n] - carry < 0x100_0000_0000_0000
    ensures Limbs(out[n := a[n] - b[n] - carry], 0x100_0000_0000_0000)
    ensures Val(out[n := a[n] - b[n] - carry]) == Val(a) - Val(b)
  {
    hide Val;
    hide LimbBound;
    hide Trunc;
    var o := out[n := a[n] - b[n] - carry];
    TruncExact(a, n);
    TruncExact(b, n);
    SubTop(a, b, out, n, carry);
    assert forall i :: n < i < 5 ==> o[i] == 0;
    TruncZeros(o, n);
  }

  lemma SubTop(a: seq<int>, b: seq<int>, out: seq<int>, n: nat, carry: int)
    requires Limbs(a, 0x100_0000_0000_0000) && Limbs(b, 0x100_0000_0000_0000) && n <= 4 && Partial(a, b, out, n, carry)
    requires Trunc(b, n) <= Trunc(a, n)
    ensures 0 <= a[n] - b[n] - carry < 0x100_0000_0000_0000
    ensures Trunc(out[n := a[n] - b[n] - carry], n) == Trunc(a, n) - Trunc(b, n)
  {
    hide LimbBound;
    if n > 0 {
      var t := a[n] - b[n] - carry;
      var o := out[n := t];
      TruncSame(o, out, n - 1);
      TruncRange(o, n - 1);
      TruncTop(a, n);
      TruncTop(b, n);
      TruncTop(o, n);
      hide Trunc;
      TopDigit(LimbBound(n - 1), Trunc(o, n - 1), Trunc(a, n - 1), Trunc(b, n - 1), t, carry, a[n], b[n]);
    }
  }

  lemma TruncSame(s: seq<int>, r: seq<int>, n: nat)
    requires |s| == 5 && |r| == 5 && n <= 4 && forall i :: 0 <= i <= n ==> s[i] == r[i]
    ensures Trunc(s, n) == Trunc(r, n)
  {
  }

  lemma TruncRange(s: seq<int>, n: nat)
    requires |s| == 5 && n <= 4 && forall i :: 0 <= i <= n ==> 0 <= s[i] < 0x100_0000_0000_0000
    ensures 0 <= Trunc(s, n) < LimbBound(n)
  {
  }

  /** A small difference seen through a 64-bit word: its sign bit and its low 56 bits. */
  lemma SignedWord(d: int)
    requires -0x100_0000_0000_0000 <= d < 0x100_0000_0000_0000
    ensures (d % 0x1_0000_0000_0000_0000) / 0x8000_0000_0000_0000 == (if d < 0 then 1 else 0)
    ensures (d % 0x1_0000_0000_0000_0000) % 0x100_0000_0000_0000 == (if d < 0 then d + 0x100_0000_0000_0000 else d)
  {
  }

  /**
   One masked limb of sub256_modm_batch: `out[i] = (a[i] - b[i]) - carry; carry = out[i] >> 63; out[i] &= 2^56 - 1`.
   */
  method SubLimb(a: array<u64>, b: array<u64>, i: nat, carry: u64, ghost x: seq<int>) returns (c: u64)
    requires a.Length == 5 && b.Length == 5 && a != b && i <= 4
    requires Limbs(x, 0x100_0000_0000_0000) && Limbs(b[..], 0x100_0000_0000_0000) && Partial(x, b[..], a[..], i, carry)
    modifies a
    ensures Partial(x, b[..], a[..], i + 1, c)
  {
    hide Trunc;
    hide LimbBound;
    ghost var o: seq<int> := a[..];
    var t: u64 := (a[i] as int - b[i] - carry) % 0x1_0000_0000_0000_0000;
    SignedWord(a[i] as int - b[i] - carry);
    c := t / 0x8000_0000_0000_0000;
    a[i] := t % 0x100_0000_0000_0000;
    SubStep(x, b[..], o, i, carry, a[i], c);
    assert a[..] == o[i := a[i]];
  }

  /**
   sub256_modm_batch with `out` and `a` the same array: `a` becomes a - b. Exact on the whole number
   when it has no limbs above `limbsize` and b is no larger.
   */
  method SubInPlace(a: array<u64>, b: array<u64>, limbsize: nat)
    requires a.Length == 5 && b.Length == 5 && a != b && limbsize <= 4
    requires Limbs(a[..], 0x100_0000_0000_0000) && Limbs(b[..], 0x100_0000_0000_0000)
    requires Val(a[..]) < LimbBound(limbsize) && Val(b[..]) <= Val(a[..])
    modifies a
    ensures Limbs(a[..], 0x100_0000_0000_0000)
    ensures Val(a[..]) == old(Val(a[..])) - Val(b[..])
  {
    hide Val;
    hide Trunc;
    hide LimbBound;
    var i: nat, carry: u64 := 0, 0;
    ghost var x: seq<int> := a[..];
    PartialStart(x, b[..]);
    if limbsize >= 4 {
      carry := SubLimb(a, b, i, carry, x); i := i + 1;
    }
    if limbsize >= 3 {
      carry := SubLimb(a, b, i, carry, x); i := i + 1;
    }
    if limbsize >= 2 {
      carry := SubLimb(a, b, i, carry, x); i := i + 1;
    }
    if limbsize >= 1 {
      carry := SubLimb(a, b, i, carry, x); i := i + 1;
    }
    ghost var o: seq<int> := a[..];
    SubLast(x, b[..], o, i, carry);
    a[i] := (a[i] as int - b[i]) - carry;
    assert a[..] == o[i := a[i]];
  }

  lemma PartialStart(a: seq<int>, b: seq<int>)
    requires |a| == 5 && |b| == 5
    ensures Partial(a, b, a, 0, 0)
  {
  }

  /** iszero256_modm_batch. */
  method IsZero(a: array<u64>) returns (r: bool)
    requires a.Length == 5 && Limbs(a[..], 0x100_0000_0000_0000)
    ensures r == (Val(a[..]) == 0)
  {
    var i := 0;
    while i < 5
      invariant 0 <= i <= 5
      invariant forall k :: 0 <= k < i ==> a[k] == 0
    {
      if a[i] != 0 {
        return false;
      }
      i := i + 1;
    }
    r := true;
  }

  /** isone256_modm_batch. */
  method IsOne(a: array<u64>) returns (r: bool)
    requires a.Length == 5 && Limbs(a[..], 0x100_0000_0000_0000)
    ensures r == (Val(a[..]) == 1)
  {
    var i := 0;
    while i < 5
      invariant 0 <= i <= 5
      invariant forall k :: 0 <= k < i ==> a[k] == if k == 0 then 1 else 0
    {
      if a[i] != (if i != 0 then 0 else 1) {
        return false;
      }
      i := i + 1;
    }
    r := true;
  }

  /** isatmost128bits256_modm_batch: limbs 3 and 4 and the upper 40 bits of limb 2 are all zero. */
  method AtMost128Bits(a: array<u64>) returns (r: bool)
    requires a.Length == 5 && Limbs(a[..], 0x100_0000_0000_0000)
    ensures r == (Val(a[..]) < TWO128)
  {
    r := a[4] == 0 && a[3] == 0 && a[2] / 0x1_0000 == 0;
  }
}
