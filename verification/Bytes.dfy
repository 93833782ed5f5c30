/**
 Byte strings as little-endian numbers, and the 64-bit words they are read and written by.
 */
module Bytes {
  import opened Numbers

  /** The little-endian number in a byte string. */
  function LE(b: seq<u8>): int {
    Eval(0x100, b)
  }

  lemma LEBound(b: seq<u8>)
    ensures 0 <= LE(b) < Pow(0x100, |b|)
  {
    EvalBound(0x100, b);
  }

  /** The n low bytes of a number. */
  function LittleEndian(v: nat, n: nat): (b: seq<u8>)
    ensures |b| == n
    decreases n
  {
    if n == 0 then [] else [v % 0x100] + LittleEndian(v / 0x100, n - 1)
  }

  lemma {:induction false} LittleEndianValue(v: nat, n: nat)
    requires v < Pow(0x100, n)
    ensures LE(LittleEndian(v, n)) == v
    decreases n
  {
    if n > 0 {
      assert v / 0x100 < Pow(0x100, n - 1);
      LittleEndianValue(v / 0x100, n - 1);
      assert LittleEndian(v, n)[1..] == LittleEndian(v / 0x100, n - 1);
    }
  }

  // ---------- 64-bit words ----------

  /** U8TO64_LE. */
  function Load64(b: seq<u8>): nat
    requires |b| == 8
  {
    Or(Or(Or(Or(Or(Or(Or(b[0], b[1] as int * 0x100), b[2] as int * 0x1_0000), b[3] as int * 0x100_0000),
                 b[4] as int * 0x1_0000_0000), b[5] as int * 0x100_0000_0000), b[6] as int * 0x1_0000_0000_0000),
                     b[7] as int * 0x100_0000_0000_0000)
  }

  lemma OrByte(a: nat, x: nat, k: nat)
    requires k <= 56 && a < Pow2(k) && x < 0x100
    ensures Or(a, x * Pow2(k)) == a + x * Pow2(k) < 0x100 * Pow2(k)
  {
    MultipleMod(Pow2(k), x);
    OrDisjoint(a, x * Pow2(k), k);
    MulMono(Pow2(k), x, 0xff);
  }

  lemma Load64Value(b: seq<u8>)
    requires |b| == 8
    ensures Load64(b) == LE(b) < 0x1_0000_0000_0000_0000
  {
    hide Or;
    Pow2Bytes();
    var a1 := b[0] as int + b[1] as int * 0x100;
    var a2 := a1 + b[2] as int * 0x1_0000;
    var a3 := a2 + b[3] as int * 0x100_0000;
    var a4 := a3 + b[4] as int * 0x1_0000_0000;
    var a5 := a4 + b[5] as int * 0x100_0000_0000;
    var a6 := a5 + b[6] as int * 0x1_0000_0000_0000;
    OrByte(b[0], b[1], 8);
    OrByte(a1, b[2], 16);
    OrByte(a2, b[3], 24);
    OrByte(a3, b[4], 32);
    OrByte(a4, b[5], 40);
    OrByte(a5, b[6], 48);
    OrByte(a6, b[7], 56);
    EightBytes(b);
  }

  lemma EightBytes(b: seq<int>)
    requires |b| == 8
    ensures Eval(0x100, b) == b[0] + 0x100 * b[1] + 0x1_0000 * b[2] + 0x100_0000 * b[3] + 0x1_0000_0000 * b[4]
                              + 0x100_0000_0000 * b[5] + 0x1_0000_0000_0000 * b[6] + 0x100_0000_0000_0000 * b[7]
  {
    EvalSplit(0x100, b, 4);
    EvalFour(0x100, b[..4]);
    EvalFour(0x100, b[4..]);
    hide Eval;
    assert Pow(0x100, 4) == 0x1_0000_0000;
  }

  /** Eight consecutive words and the number they spell. */
  function Words(b: seq<u8>): (x: seq<u64>)
    requires |b| % 8 == 0
    ensures |x| == |b| / 8
  {
    if |b| == 0 then [] else
    Load64Value(b[..8]);
    [Load64(b[..8])] + Words(b[8..])
  }

  lemma {:induction false} WordsValue(b: seq<u8>)
    requires |b| % 8 == 0
    ensures Eval(0x1_0000_0000_0000_0000, Words(b)) == LE(b)
  {
    if |b| > 0 {
      Load64Value(b[..8]);
      WordsValue(b[8..]);
      EvalSplit(0x100, b, 8);
      assert Pow(0x100, 4) == 0x1_0000_0000;
      PowAdd(0x100, 4, 4);
      assert Words(b)[1..] == Words(b[8..]);
    }
  }

  lemma {:induction false} PowMono(b: int, x: nat, y: nat)
    requires b >= 1 && x <= y
    ensures 1 <= Pow(b, x) <= Pow(b, y)
  {
    if x > 0 {
      PowMono(b, x - 1, y - 1);
      MulMono(b, Pow(b, x - 1), Pow(b, y - 1));
    } else if y > 0 {
      PowMono(b, 0, y - 1);
      MulMono(b, 1, Pow(b, y - 1));
    }
  }

  lemma Pow256Of31()
    ensures Pow(0x100, 31) == 0x100_0000_0000_0000_0000_0000_0000_0000_0000_0000_0000_0000_0000_0000_0000_0000
        && Pow(0x100, 32) == 0x1_0000_0000_0000_0000_0000_0000_0000_0000_0000_0000_0000_0000_0000_0000_0000_0000
  {
    assert Pow(0x100, 8) == 0x1_0000_0000_0000_0000 && Pow(0x100, 7) == 0x100_0000_0000_0000;
    PowAdd(0x100, 8, 8);
    PowAdd(0x100, 8, 7);
    PowAdd(0x100, 16, 15);
    assert Pow(0x100, 32) == 0x100 * Pow(0x100, 31);
  }

  lemma OrAbove(a: nat, y: nat, k: nat, p: nat)
    requires p == Pow2(k) && a < p
    ensures Or(a, p * y) == a + p * y
  {
    MultipleMod(p, y);
    OrDisjoint(a, p * y, k);
  }

  predicate AreWords(x: seq<int>, n: nat) {
    |x| == n && forall i :: 0 <= i < n ==> 0 <= x[i] < 0x1_0000_0000_0000_0000
  }

  lemma FourWords(s: seq<int>)
    requires |s| == 4
    ensures Eval(0x1_0000_0000_0000_0000, s)
        == s[0] + 0x1_0000_0000_0000_0000 * s[1] + 0x1_0000_0000_0000_0000_0000_0000_0000_0000 * s[2]
        + 0x1_0000_0000_0000_0000_0000_0000_0000_0000_0000_0000_0000_0000 * s[3]
  {
    EvalFour(0x1_0000_0000_0000_0000, s);
  }

  // ---------- storing ----------

  /** U64TO8_LE at position `at`. */
  method Store64(out: array<u8>, at: nat, v: u64)
    requires at + 8 <= out.Length
    modifies out
    ensures LE(out[at..at + 8]) == v
    ensures out[..at] == old(out[..at]) && out[at + 8..] == old(out[at + 8..])
  {
    out[at] := v % 0x100;
    out[at + 1] := (v / 0x100) % 0x100;
    out[at + 2] := (v / 0x1_0000) % 0x100;
    out[at + 3] := (v / 0x100_0000) % 0x100;
    out[at + 4] := (v / 0x1_0000_0000) % 0x100;
    out[at + 5] := (v / 0x100_0000_0000) % 0x100;
    out[at + 6] := (v / 0x1_0000_0000_0000) % 0x100;
    out[at + 7] := (v / 0x100_0000_0000_0000) % 0x100;
    EightBytes(out[at..at + 8]);
    WordBytes(v);
  }

  lemma WordBytes(v: int)
    requires 0 <= v < 0x1_0000_0000_0000_0000
    ensures v == v % 0x100 + 0x100 * ((v / 0x100) % 0x100) + 0x1_0000 * ((v / 0x1_0000) % 0x100)
        + 0x100_0000 * ((v / 0x100_0000) % 0x100)
                 + 0x1_0000_0000 * ((v / 0x1_0000_0000) % 0x100) + 0x100_0000_0000 * ((v / 0x100_0000_0000) % 0x100)
                     + 0x1_0000_0000_0000 * ((v / 0x1_0000_0000_0000) % 0x100)
                 + 0x100_0000_0000_0000 * ((v / 0x100_0000_0000_0000) % 0x100)
  {
    var v1 := v / 0x100;
    var v2 := v1 / 0x100;
    var v3 := v2 / 0x100;
    var v4 := v3 / 0x100;
    var v5 := v4 / 0x100;
    var v6 := v5 / 0x100;
    var v7 := v6 / 0x100;
    assert v2 == v / 0x1_0000 && v3 == v / 0x100_0000 && v4 == v / 0x1_0000_0000;
    assert v5 == v / 0x100_0000_0000 && v6 == v / 0x1_0000_0000_0000 && v7 == v / 0x100_0000_0000_0000;
  }

  lemma WordOf(a: nat, y: int, k: nat, p: int, q: int)
    requires p == Pow2(k) && a < p && q > 0 && p * q == 0x1_0000_0000_0000_0000 && 0 <= y
    ensures Or(a, (y * p) % 0x1_0000_0000_0000_0000) == a + p * (y % q)
  {
    hide Or;
    hide Pow2;
    assert y * p == 0x1_0000_0000_0000_0000 * (y / q) + p * (y % q) by {
      assert y == q * (y / q) + y % q;
      assert p * (q * (y / q)) == (p * q) * (y / q);
    }
    MulMono(p, y % q, q - 1);
    MulMono(p, 0, y % q);
    DivModUnique(y * p, 0x1_0000_0000_0000_0000, y / q, p * (y % q));
    OrAbove(a, y % q, k, p);
  }

  /** A word's low bits joined above a field, and the join cut to the field of a limb. */
  lemma JoinMasked(a: nat, y: nat, k: nat, p: nat, q: nat, m: nat, n: nat)
    requires p == Pow2(k) && a < p && q > 0 && p * q == 0x1_0000_0000_0000_0000 && n > 0 && m == p * n && q % n == 0
    ensures Or(a, (y * p) % 0x1_0000_0000_0000_0000) % m == a + p * (y % n)
  {
    hide Or;
    hide Pow2;
    WordOf(a, y, k, p, q);
    ModOfMod(y, q, n);
    CutField(a, y % q, p, n);
  }

  lemma ModOfMod(y: nat, q: nat, n: nat)
    requires q > 0 && n > 0 && q % n == 0
    ensures (y % q) % n == y % n
  {
    var t := y / q;
    var s := q / n;
    assert y % q == y + n * (-(s * t)) by {
      assert y == q * t + y % q && q == n * s;
      assert n * s * t == n * (s * t);
    }
    ModShift(y, n, -(s * t));
  }

  lemma CutField(a: nat, x: nat, p: nat, n: nat)
    requires a < p && n > 0
    ensures p * n > 0 && (a + p * x) % (p * n) == a + p * (x % n)
  {
    var t, r := x / n, x % n;
    assert p * n > 0;
    MulMono(p, r, n - 1);
    MulMono(p, 0, r);
    assert p * x == (p * n) * t + p * r by {
      assert x == n * t + r;
      assert p * (n * t) == (p * n) * t;
    }
    DivModUnique(a + p * x, p * n, t, a + p * r);
  }

  /** Four words stored in a row. */
  method Store256(out: array<u8>, at: nat, w0: u64, w1: u64, w2: u64, w3: u64)
    requires at + 32 <= out.Length
    modifies out
    ensures LE(out[at..at + 32])
        == w0 + 0x1_0000_0000_0000_0000 * (w1 as int) + 0x1_0000_0000_0000_0000_0000_0000_0000_0000 * (w2 as int)
        + 0x1_0000_0000_0000_0000_0000_0000_0000_0000_0000_0000_0000_0000 * (w3 as int)
    ensures out[..at] == old(out[..at]) && out[at + 32..] == old(out[at + 32..])
  {
    hide LE;
    ghost var pre, tail := out[..at], out[at + 8..][24..];
    Store64(out, at, w0);
    ghost var s0 := out[at..at + 8];
    assert out[..at + 8] == pre + s0 && out[at + 16..][16..] == tail;
    Store64(out, at + 8, w1);
    ghost var s1 := out[at + 8..at + 16];
    assert out[..at + 16] == pre + s0 + s1 && out[at + 24..][8..] == tail;
    Store64(out, at + 16, w2);
    ghost var s2 := out[at + 16..at + 24];
    assert out[..at + 24] == pre + s0 + s1 + s2 && out[at + 32..] == tail;
    Store64(out, at + 24, w3);
    ghost var s3 := out[at + 24..at + 32];
    assert out[..at + 32] == pre + s0 + s1 + s2 + s3;
    assert out[..at] == pre && out[at..at + 32] == out[..at + 32][at..] == s0 + s1 + s2 + s3;
    JoinWords(s0, s1, s2, s3);
  }

  lemma JoinWords(s0: seq<u8>, s1: seq<u8>, s2: seq<u8>, s3: seq<u8>)
    requires |s0| == 8 && |s1| == 8 && |s2| == 8
    ensures LE(s0 + s1 + s2 + s3)
        == LE(s0) + 0x1_0000_0000_0000_0000 * LE(s1) + 0x1_0000_0000_0000_0000_0000_0000_0000_0000 * LE(s2)
        + 0x1_0000_0000_0000_0000_0000_0000_0000_0000_0000_0000_0000_0000 * LE(s3)
  {
    assert s0 + s1 + s2 + s3 == s0 + (s1 + (s2 + s3));
    EvalAppend(0x100, s2, s3);
    EvalAppend(0x100, s1, s2 + s3);
    EvalAppend(0x100, s0, s1 + (s2 + s3));
    assert Pow(0x100, 4) == 0x1_0000_0000;
    PowAdd(0x100, 4, 4);
  }
}
