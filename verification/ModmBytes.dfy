/**
 Byte strings to scalars and back: expand256_modm, expand_raw256_modm, contract256_modm.
 */
module ModmBytes {
  import opened Numbers
  import opened Scalars
  import opened Modm
  import opened Bytes

  // ---------- limbs cut across word boundaries ----------

  /** `((x >> s) | (y << (64 - s))) & (2^56 - 1)` for s = 56, 48, 40, 32. */
  lemma Join56(x: int, y: int)
    requires 0 <= x < 0x1_0000_0000_0000_0000 && 0 <= y < 0x1_0000_0000_0000_0000
    ensures Or(x / 0x100_0000_0000_0000, (y * 0x100) % 0x1_0000_0000_0000_0000) % 0x100_0000_0000_0000
        == x / 0x100_0000_0000_0000 + 0x100 * (y % 0x1_0000_0000_0000)
  {
    Pow2Bytes();
    hide Or;
    hide Pow2;
    JoinMasked(x / 0x100_0000_0000_0000, y, 8, 0x100, 0x100_0000_0000_0000, 0x100_0000_0000_0000, 0x1_0000_0000_0000);
  }

  lemma Join48(x: int, y: int)
    requires 0 <= x < 0x1_0000_0000_0000_0000 && 0 <= y < 0x1_0000_0000_0000_0000
    ensures Or(x / 0x1_0000_0000_0000, (y * 0x1_0000) % 0x1_0000_0000_0000_0000) % 0x100_0000_0000_0000
        == x / 0x1_0000_0000_0000 + 0x1_0000 * (y % 0x100_0000_0000)
  {
    Pow2Bytes();
    hide Or;
    hide Pow2;
    JoinMasked(x / 0x1_0000_0000_0000, y, 16, 0x1_0000, 0x1_0000_0000_0000, 0x100_0000_0000_0000, 0x100_0000_0000);
  }

  lemma Join40(x: int, y: int)
    requires 0 <= x < 0x1_0000_0000_0000_0000 && 0 <= y < 0x1_0000_0000_0000_0000
    ensures Or(x / 0x100_0000_0000, (y * 0x100_0000) % 0x1_0000_0000_0000_0000) % 0x100_0000_0000_0000
        == x / 0x100_0000_0000 + 0x100_0000 * (y % 0x1_0000_0000)
  {
    Pow2Bytes();
    hide Or;
    hide Pow2;
    JoinMasked(x / 0x100_0000_0000, y, 24, 0x100_0000, 0x100_0000_0000, 0x100_0000_0000_0000, 0x1_0000_0000);
  }

  lemma Join32Masked(x: int, y: int)
    requires 0 <= x < 0x1_0000_0000_0000_0000 && 0 <= y < 0x1_0000_0000_0000_0000
    ensures Or(x / 0x1_0000_0000, (y * 0x1_0000_0000) % 0x1_0000_0000_0000_0000) % 0x100_0000_0000_0000
        == x / 0x1_0000_0000 + 0x1_0000_0000 * (y % 0x100_0000)
    ensures Or(x / 0x1_0000_0000, (y * 0x1_0000_0000) % 0x1_0000_0000_0000_0000) % 0x100_0000_0000
        == x / 0x1_0000_0000 + 0x1_0000_0000 * (y % 0x100)
  {
    Pow2Bytes();
    hide Or;
    hide Pow2;
    JoinMasked(x / 0x1_0000_0000, y, 32, 0x1_0000_0000, 0x1_0000_0000, 0x100_0000_0000_0000, 0x100_0000);
    JoinMasked(x / 0x1_0000_0000, y, 32, 0x1_0000_0000, 0x1_0000_0000, 0x100_0000_0000, 0x100);
  }

  // ---------- expand ----------

  /** The limbs of x mod 2^264, from the first five words. */
  lemma LowLimbs(x: seq<int>, r: seq<int>, rest: int)
    requires AreWords(x, 5) && |r| == 5
    requires r[0] == x[0] % 0x100_0000_0000_0000
    requires r[1] == x[0] / 0x100_0000_0000_0000 + 0x100 * (x[1] % 0x1_0000_0000_0000)
    requires r[2] == x[1] / 0x1_0000_0000_0000 + 0x1_0000 * (x[2] % 0x100_0000_0000)
    requires r[3] == x[2] / 0x100_0000_0000 + 0x100_0000 * (x[3] % 0x1_0000_0000)
    requires r[4] == x[3] / 0x1_0000_0000 + 0x1_0000_0000 * (x[4] % 0x100)
    ensures Limbs(r, 0x100_0000_0000)
    ensures x[0] + 0x1_0000_0000_0000_0000 * x[1] + 0x1_0000_0000_0000_0000_0000_0000_0000_0000 * x[2]
        + 0x1_0000_0000_0000_0000_0000_0000_0000_0000_0000_0000_0000_0000 * x[3]
        + 0x1_0000_0000_0000_0000_0000_0000_0000_0000_0000_0000_0000_0000_0000_0000_0000_0000
        * (x[4] + 0x1_0000_0000_0000_0000 * rest)
            == Val(r) + 0x100_0000_0000_0000_0000_0000_0000_0000_0000_0000_0000_0000_0000_0000_0000_0000_0000
                * (x[4] / 0x100 + 0x100_0000_0000_0000 * rest)
  {
    SplitWord(x[0], 0x100_0000_0000_0000);
    SplitWord(x[1], 0x1_0000_0000_0000);
    SplitWord(x[2], 0x100_0000_0000);
    SplitWord(x[3], 0x1_0000_0000);
    SplitWord(x[4], 0x100);
  }

  /** The limbs of x >> 248, from words three to seven. */
  lemma HighLimbs(x: seq<int>, q: seq<int>, low: int)
    requires AreWords(x, 5) && |q| == 5
    requires q[0] == x[0] / 0x100_0000_0000_0000 + 0x100 * (x[1] % 0x1_0000_0000_0000)
    requires q[1] == x[1] / 0x1_0000_0000_0000 + 0x1_0000 * (x[2] % 0x100_0000_0000)
    requires q[2] == x[2] / 0x100_0000_0000 + 0x100_0000 * (x[3] % 0x1_0000_0000)
    requires q[3] == x[3] / 0x1_0000_0000 + 0x1_0000_0000 * (x[4] % 0x100_0000)
    requires q[4] == x[4] / 0x100_0000
    ensures Limbs(q, 0x100_0000_0000)
    ensures low + 0x1_0000_0000_0000_0000_0000_0000_0000_0000_0000_0000_0000_0000
        * (x[0] + 0x1_0000_0000_0000_0000 * x[1] + 0x1_0000_0000_0000_0000_0000_0000_0000_0000 * x[2]
        + 0x1_0000_0000_0000_0000_0000_0000_0000_0000_0000_0000_0000_0000 * x[3]
        + 0x1_0000_0000_0000_0000_0000_0000_0000_0000_0000_0000_0000_0000_0000_0000_0000_0000 * x[4])
            == low + 0x1_0000_0000_0000_0000_0000_0000_0000_0000_0000_0000_0000_0000 * (x[0] % 0x100_0000_0000_0000)
                + 0x100_0000_0000_0000_0000_0000_0000_0000_0000_0000_0000_0000_0000_0000_0000_0000 * Val(q)
  {
    SplitWord(x[0], 0x100_0000_0000_0000);
    SplitWord(x[1], 0x1_0000_0000_0000);
    SplitWord(x[2], 0x100_0000_0000);
    SplitWord(x[3], 0x1_0000_0000);
    SplitWord(x[4], 0x100_0000);
  }

  lemma SplitWord(x: int, m: int)
    requires 0 <= x < 0x1_0000_0000_0000_0000
    requires m == 0x100_0000_0000_0000 || m == 0x1_0000_0000_0000 || m == 0x100_0000_0000 || m == 0x1_0000_0000
        || m == 0x100_0000 || m == 0x100
    ensures x == x % m + m * (x / m)
    ensures m == 0x100_0000_0000_0000 ==> x / m < 0x100
    ensures m == 0x1_0000_0000_0000 ==> x / m < 0x1_0000
    ensures m == 0x100_0000_0000 ==> x / m < 0x100_0000
    ensures m == 0x1_0000_0000 ==> x / m < 0x1_0000_0000
    ensures m == 0x100_0000 ==> x / m < 0x100_0000_0000
  {
  }

  lemma EightWords(x: seq<int>)
    requires AreWords(x, 8)
    ensures Eval(0x1_0000_0000_0000_0000, x)
        == x[0] + 0x1_0000_0000_0000_0000 * x[1] + 0x1_0000_0000_0000_0000_0000_0000_0000_0000 * x[2]
        + 0x1_0000_0000_0000_0000_0000_0000_0000_0000_0000_0000_0000_0000 * x[3]
                            + 0x1_0000_0000_0000_0000_0000_0000_0000_0000_0000_0000_0000_0000_0000_0000_0000_0000
                                * (x[4] + 0x1_0000_0000_0000_0000
                                * (x[5] + 0x1_0000_0000_0000_0000 * (x[6] + 0x1_0000_0000_0000_0000 * x[7])))
  {
    hide Eval;
    FourWords([x[4], x[5], x[6], x[7]]);
    FourWords([x[0], x[1], x[2], x[3]]);
    EvalAppend(0x1_0000_0000_0000_0000, [x[0], x[1], x[2], x[3]], [x[4], x[5], x[6], x[7]]);
    assert [x[0], x[1], x[2], x[3]] + [x[4], x[5], x[6], x[7]] == x;
    assert Pow(0x1_0000_0000_0000_0000, 4)
        == 0x1_0000_0000_0000_0000_0000_0000_0000_0000_0000_0000_0000_0000_0000_0000_0000_0000;
  }

  lemma EightWordsRange(x: seq<int>)
    requires AreWords(x, 8)
    ensures 0 <= Eval(0x1_0000_0000_0000_0000, x) < TWO512
  {
    EvalBound(0x1_0000_0000_0000_0000, x);
    assert Pow(0x1_0000_0000_0000_0000, 8) == TWO512;
  }

  /** The eight words of `x` cut at 2^264. */
  lemma LowHalf(x: seq<int>, r: seq<int>)
    requires AreWords(x, 8) && |r| == 5
    requires r[0] == x[0] % 0x100_0000_0000_0000
    requires r[1] == x[0] / 0x100_0000_0000_0000 + 0x100 * (x[1] % 0x1_0000_0000_0000)
    requires r[2] == x[1] / 0x1_0000_0000_0000 + 0x1_0000 * (x[2] % 0x100_0000_0000)
    requires r[3] == x[2] / 0x100_0000_0000 + 0x100_0000 * (x[3] % 0x1_0000_0000)
    requires r[4] == x[3] / 0x1_0000_0000 + 0x1_0000_0000 * (x[4] % 0x100)
    ensures Limbs(r, 0x100_0000_0000)
        && Val(r) == Eval(0x1_0000_0000_0000_0000, x)
        % 0x100_0000_0000_0000_0000_0000_0000_0000_0000_0000_0000_0000_0000_0000_0000_0000_0000
  {
    hide Val;
    hide Eval;
    EightWords(x);
    var top := x[5] + 0x1_0000_0000_0000_0000 * (x[6] + 0x1_0000_0000_0000_0000 * x[7]);
    LowLimbs(x[..5], r, top);
    ValRange(r, 0x100_0000_0000);
    DivModUnique(Eval(0x1_0000_0000_0000_0000, x),
        0x100_0000_0000_0000_0000_0000_0000_0000_0000_0000_0000_0000_0000_0000_0000_0000_0000,
        x[4] / 0x100 + 0x100_0000_0000_0000 * top, Val(r));
  }

  /** The eight words of `x` cut at 2^248. */
  lemma HighHalf(x: seq<int>, q: seq<int>)
    requires AreWords(x, 8) && |q| == 5
    requires q[0] == x[3] / 0x100_0000_0000_0000 + 0x100 * (x[4] % 0x1_0000_0000_0000)
    requires q[1] == x[4] / 0x1_0000_0000_0000 + 0x1_0000 * (x[5] % 0x100_0000_0000)
    requires q[2] == x[5] / 0x100_0000_0000 + 0x100_0000 * (x[6] % 0x1_0000_0000)
    requires q[3] == x[6] / 0x1_0000_0000 + 0x1_0000_0000 * (x[7] % 0x100_0000)
    requires q[4] == x[7] / 0x100_0000
    ensures Limbs(q, 0x100_0000_0000)
        && Val(q) == Eval(0x1_0000_0000_0000_0000, x)
        / 0x100_0000_0000_0000_0000_0000_0000_0000_0000_0000_0000_0000_0000_0000_0000_0000
    ensures 0 <= Eval(0x1_0000_0000_0000_0000, x) < TWO512
  {
    hide Val;
    hide Eval;
    EightWords(x);
    EightWordsRange(x);
    var low := x[0] + 0x1_0000_0000_0000_0000 * x[1] + 0x1_0000_0000_0000_0000_0000_0000_0000_0000 * x[2];
    HighLimbs(x[3..], q, low);
    DivModUnique(Eval(0x1_0000_0000_0000_0000, x),
        0x100_0000_0000_0000_0000_0000_0000_0000_0000_0000_0000_0000_0000_0000_0000_0000, Val(q),
        low + 0x1_0000_0000_0000_0000_0000_0000_0000_0000_0000_0000_0000_0000 * (x[3] % 0x100_0000_0000_0000));
  }

  /** `memcpy(work, in, len)` into a zeroed 64-byte buffer. */
  function ZeroPadded(b: seq<u8>): (w: seq<u8>)
    requires |b| <= 64
    ensures |w| == 64
  {
    b + seq(64 - |b|, i => 0)
  }

  lemma PaddedValue(b: seq<u8>)
    requires |b| <= 64
    ensures LE(ZeroPadded(b)) == LE(b)
  {
    var z: seq<u8> := seq(64 - |b|, i => 0);
    EvalAppend(0x100, b, z);
    EvalZeros(0x100, z);
  }

  /**
   expand256_modm: up to 64 bytes, reduced modulo the order. Inputs shorter than 32 bytes are
   below the order already and are not reduced.
   */
  method Expand256(out: array<u64>, input: seq<u8>)
    requires out.Length == 5 && |input| <= 64
    modifies out
    ensures Limbs(out[..], 0x1_0000_0000)
    ensures Val(out[..]) == LE(input) % L
  {
    hide Or;
    hide Words;
    hide Val;
    var work := ZeroPadded(input);
    PaddedValue(input);
    var x: seq<u64> := Words(work);
    WordsValue(work);
    ghost var y: seq<int> := x;
    Join56(x[0], x[1]);
    Join48(x[1], x[2]);
    Join40(x[2], x[3]);
    Join32Masked(x[3], x[4]);
    out[0] := x[0] % 0x100_0000_0000_0000;
    out[1] := Or(x[0] / 0x100_0000_0000_0000, (x[1] as int * 0x100) % 0x1_0000_0000_0000_0000) % 0x100_0000_0000_0000;
    out[2] := Or(x[1] / 0x1_0000_0000_0000, (x[2] as int * 0x1_0000) % 0x1_0000_0000_0000_0000) % 0x100_0000_0000_0000;
    out[3] := Or(x[2] / 0x100_0000_0000, (x[3] as int * 0x100_0000) % 0x1_0000_0000_0000_0000) % 0x100_0000_0000_0000;
    out[4] := Or(x[3] / 0x1_0000_0000, (x[4] as int * 0x1_0000_0000) % 0x1_0000_0000_0000_0000) % 0x100_0000_0000;
    LowHalf(y, out[..]);
    if |input| < 32 {
      ShortInput(input, out[..]);
      return;
    }
    var q1 := new u64[5];
    Join56(x[3], x[4]);
    Join48(x[4], x[5]);
    Join40(x[5], x[6]);
    Join32Masked(x[6], x[7]);
    q1[0] := Or(x[3] / 0x100_0000_0000_0000, (x[4] as int * 0x100) % 0x1_0000_0000_0000_0000) % 0x100_0000_0000_0000;
    q1[1] := Or(x[4] / 0x1_0000_0000_0000, (x[5] as int * 0x1_0000) % 0x1_0000_0000_0000_0000) % 0x100_0000_0000_0000;
    q1[2] := Or(x[5] / 0x100_0000_0000, (x[6] as int * 0x100_0000) % 0x1_0000_0000_0000_0000) % 0x100_0000_0000_0000;
    q1[3] := Or(x[6] / 0x1_0000_0000, (x[7] as int * 0x1_0000_0000) % 0x1_0000_0000_0000_0000) % 0x100_0000_0000_0000;
    q1[4] := x[7] / 0x100_0000;
    HighHalf(y, q1[..]);
    BarrettReduce256(out, q1, out, LE(input));
  }

  lemma ShortInput(b: seq<u8>, r: seq<int>)
    requires |b| < 32 && Limbs(r, 0x100_0000_0000)
        && Val(r) == LE(b) % 0x100_0000_0000_0000_0000_0000_0000_0000_0000_0000_0000_0000_0000_0000_0000_0000_0000
    ensures Limbs(r, 0x1_0000_0000) && Val(r) == LE(b) % L
  {
    LEBound(b);
    PowMono(0x100, |b|, 31);
    Pow256Of31();
  }

  /** expand_raw256_modm: 32 bytes, not reduced. */
  method ExpandRaw256(out: array<u64>, input: seq<u8>)
    requires out.Length == 5 && |input| == 32
    modifies out
    ensures Limbs(out[..], 0x1_0000_0000)
    ensures Val(out[..]) == LE(input)
  {
    hide Or;
    hide Words;
    hide Val;
    var x: seq<u64> := Words(input);
    WordsValue(input);
    Join56(x[0], x[1]);
    Join48(x[1], x[2]);
    Join40(x[2], x[3]);
    out[0] := x[0] % 0x100_0000_0000_0000;
    out[1] := Or(x[0] / 0x100_0000_0000_0000, (x[1] as int * 0x100) % 0x1_0000_0000_0000_0000) % 0x100_0000_0000_0000;
    out[2] := Or(x[1] / 0x1_0000_0000_0000, (x[2] as int * 0x1_0000) % 0x1_0000_0000_0000_0000) % 0x100_0000_0000_0000;
    out[3] := Or(x[2] / 0x100_0000_0000, (x[3] as int * 0x100_0000) % 0x1_0000_0000_0000_0000) % 0x100_0000_0000_0000;
    out[4] := (x[3] / 0x1_0000_0000) % 0x1_0000_0000;
    FourWords(x);
    RawLimbs(x, out[..]);
  }

  lemma RawLimbs(x: seq<int>, r: seq<int>)
    requires AreWords(x, 4) && |r| == 5
    requires r[0] == x[0] % 0x100_0000_0000_0000
    requires r[1] == x[0] / 0x100_0000_0000_0000 + 0x100 * (x[1] % 0x1_0000_0000_0000)
    requires r[2] == x[1] / 0x1_0000_0000_0000 + 0x1_0000 * (x[2] % 0x100_0000_0000)
    requires r[3] == x[2] / 0x100_0000_0000 + 0x100_0000 * (x[3] % 0x1_0000_0000)
    requires r[4] == (x[3] / 0x1_0000_0000) % 0x1_0000_0000
    ensures Limbs(r, 0x1_0000_0000)
    ensures Val(r) == x[0] + 0x1_0000_0000_0000_0000 * x[1] + 0x1_0000_0000_0000_0000_0000_0000_0000_0000 * x[2]
        + 0x1_0000_0000_0000_0000_0000_0000_0000_0000_0000_0000_0000_0000 * x[3]
  {
    SplitWord(x[0], 0x100_0000_0000_0000);
    SplitWord(x[1], 0x1_0000_0000_0000);
    SplitWord(x[2], 0x100_0000_0000);
    SplitWord(x[3], 0x1_0000_0000);
  }

  // ---------- contract ----------

  /** contract256_modm into `out[at..at + 32]`. */
  method Contract256(out: array<u8>, at: nat, s: array<u64>)
    requires s.Length == 5 && Limbs(s[..], 0x1_0000_0000) && at + 32 <= out.Length
    modifies out
    ensures LE(out[at..at + 32]) == Val(s[..])
    ensures out[..at] == old(out[..at]) && out[at + 32..] == old(out[at + 32..])
  {
    hide Or;
    Pow2Bytes();
    WordOf(s[0], s[1], 56, 0x100_0000_0000_0000, 0x100);
    WordOf(s[1] / 0x100, s[2], 48, 0x1_0000_0000_0000, 0x1_0000);
    WordOf(s[2] / 0x1_0000, s[3], 40, 0x100_0000_0000, 0x100_0000);
    WordOf(s[3] / 0x100_0000, s[4], 32, 0x1_0000_0000, 0x1_0000_0000);
    var w0: u64 := Or(s[0], (s[1] as int * 0x100_0000_0000_0000) % 0x1_0000_0000_0000_0000);
    var w1: u64 := Or(s[1] / 0x100, (s[2] as int * 0x1_0000_0000_0000) % 0x1_0000_0000_0000_0000);
    var w2: u64 := Or(s[2] / 0x1_0000, (s[3] as int * 0x100_0000_0000) % 0x1_0000_0000_0000_0000);
    var w3: u64 := Or(s[3] / 0x100_0000, (s[4] as int * 0x1_0000_0000) % 0x1_0000_0000_0000_0000);
    Store256(out, at, w0, w1, w2, w3);
    ContractSum(s[..], w0, w1, w2, w3);
  }

  lemma ContractSum(s: seq<int>, w0: int, w1: int, w2: int, w3: int)
    requires Limbs(s, 0x1_0000_0000)
    requires w0 == s[0] + 0x100_0000_0000_0000 * (s[1] % 0x100)
    requires w1 == s[1] / 0x100 + 0x1_0000_0000_0000 * (s[2] % 0x1_0000)
    requires w2 == s[2] / 0x1_0000 + 0x100_0000_0000 * (s[3] % 0x100_0000)
    requires w3 == s[3] / 0x100_0000 + 0x1_0000_0000 * (s[4] % 0x1_0000_0000)
    ensures w0 + 0x1_0000_0000_0000_0000 * w1 + 0x1_0000_0000_0000_0000_0000_0000_0000_0000 * w2
        + 0x1_0000_0000_0000_0000_0000_0000_0000_0000_0000_0000_0000_0000 * w3 == Val(s)
  {
  }
}
