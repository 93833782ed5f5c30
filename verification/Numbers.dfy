/**
 Machine words, bit operators on naturals, powers and positional digit sums.
 */
module Numbers {

  const TWO127 := 0x8000_0000_0000_0000_0000_0000_0000_0000
  const TWO128 := 0x1_0000_0000_0000_0000_0000_0000_0000_0000
  const TWO223 := 0x8000_0000_0000_0000_0000_0000_0000_0000_0000_0000_0000_0000_0000_0000
  const TWO224 := 0x1_0000_0000_0000_0000_0000_0000_0000_0000_0000_0000_0000_0000_0000_0000
  const TWO253 := 0x2000_0000_0000_0000_0000_0000_0000_0000_0000_0000_0000_0000_0000_0000_0000_0000
  const TWO255 := 0x8000_0000_0000_0000_0000_0000_0000_0000_0000_0000_0000_0000_0000_0000_0000_0000
  const TWO512 := 0x1_0000_0000_0000_0000_0000_0000_0000_0000_0000_0000_0000_0000_0000_0000_0000_0000
      * 0x1_0000_0000_0000_0000_0000_0000_0000_0000_0000_0000_0000_0000_0000_0000_0000_0000

  type u8 = x: int | 0 <= x < 0x100
  type u64 = x: int | 0 <= x < 0x1_0000_0000_0000_0000
  type u128 = x: int | 0 <= x < 0x1_0000_0000_0000_0000_0000_0000_0000_0000

  // ---------- powers ----------

  function Pow(b: int, e: nat): int {
    if e == 0 then 1 else b * Pow(b, e - 1)
  }

  function Pow2(e: nat): nat
    ensures Pow2(e) > 0
  {
    if e == 0 then 1 else 2 * Pow2(e - 1)
  }

  lemma {:induction false} Pow2Add(a: nat, b: nat)
    ensures Pow2(a + b) == Pow2(a) * Pow2(b)
  {
    if a == 0 {
    } else {
      Pow2Add(a - 1, b);
      assert Pow2(a + b) == 2 * Pow2(a - 1 + b);
    }
  }

  lemma {:induction false} PowAdd(b: int, x: nat, y: nat)
    ensures Pow(b, x + y) == Pow(b, x) * Pow(b, y)
  {
    if x > 0 {
      PowAdd(b, x - 1, y);
      var p, q := Pow(b, x - 1), Pow(b, y);
      assert b * (p * q) == (b * p) * q;
    }
  }

  lemma Pow16Of63()
    ensures 8 * Pow(16, 63) == TWO255
  {
    assert Pow(16, 8) == 0x1_0000_0000;
    assert Pow(16, 7) == 0x1000_0000;
    PowAdd(16, 8, 8);
    PowAdd(16, 16, 16);
    PowAdd(16, 8, 7);
    PowAdd(16, 16, 15);
    PowAdd(16, 32, 31);
  }

  lemma Pow2Bytes()
    ensures Pow2(8) == 0x100 && Pow2(16) == 0x1_0000 && Pow2(24) == 0x100_0000 && Pow2(32) == 0x1_0000_0000
    ensures Pow2(40) == 0x100_0000_0000 && Pow2(48) == 0x1_0000_0000_0000 && Pow2(56) == 0x100_0000_0000_0000
        && Pow2(64) == 0x1_0000_0000_0000_0000
  {
    assert Pow2(8) == 0x100;
    Pow2Add(8, 8);
    Pow2Add(16, 8);
    Pow2Add(16, 16);
    Pow2Add(32, 8);
    Pow2Add(32, 16);
    Pow2Add(32, 24);
    Pow2Add(32, 32);
  }

  lemma Pow2Of256()
    ensures Pow2(255) == TWO255 && Pow2(256) == 2 * TWO255
  {
    hide Pow2;
    Pow2Words();
    Pow2Add(16, 16);
    Pow2Add(32, 32);
    Pow2Add(64, 64);
    Pow2Add(16, 13);
    Pow2Add(32, 29);
    Pow2Add(64, 61);
    Pow2Add(128, 125);
    Pow2Add(253, 2);
    Pow2Add(253, 3);
  }

  /** What the named constants are. */
  lemma NamedPowers()
    ensures TWO127 == Pow2(127) && TWO128 == Pow2(128) && TWO223 == Pow2(223) && TWO224 == Pow2(224)
    ensures TWO253 == Pow2(253) && TWO255 == Pow2(255) && TWO512 == Pow2(512)
  {
    hide Pow2;
    Pow2Words();
    Pow2Of256();
    Pow2Bytes();
    Pow2Add(64, 64);
    Pow2Add(127, 1);
    Pow2Add(128, 64);
    Pow2Add(192, 32);
    Pow2Add(223, 1);
    Pow2Add(253, 2);
    Pow2Add(256, 256);
  }

  lemma Pow2Words()
    ensures Pow2(16) == 0x1_0000 && Pow2(13) == 0x2000 && Pow2(1) == 2 && Pow2(2) == 4 && Pow2(3) == 8
  {
  }

  lemma {:induction false} Pow2Mono(a: nat, b: nat)
    requires a <= b
    ensures Pow2(a) <= Pow2(b)
  {
    if a < b {
      Pow2Mono(a, b - 1);
    }
  }

  // ---------- bit operators ----------

  /** Bitwise or of two naturals, bit by bit from the bottom. */
  function Or(a: nat, b: nat): nat {
    if a == 0 then b else if b == 0 then a
    else 2 * Or(a / 2, b / 2) + (if a % 2 == 1 || b % 2 == 1 then 1 else 0)
  }

  /** Bitwise exclusive or of two naturals. */
  function Xor(a: nat, b: nat): nat {
    if a == 0 then b else if b == 0 then a
    else 2 * Xor(a / 2, b / 2) + (if a % 2 != b % 2 then 1 else 0)
  }

  /** Bitwise and of two naturals. */
  function And(a: nat, b: nat): nat {
    if a == 0 || b == 0 then 0
    else 2 * And(a / 2, b / 2) + (if a % 2 == 1 && b % 2 == 1 then 1 else 0)
  }

  /** Each operator works on the last bits and on the rest apart. */
  lemma BitSteps(a: nat, b: nat)
    ensures And(a, b) / 2 == And(a / 2, b / 2) && And(a, b) % 2 == (if a % 2 == 1 && b % 2 == 1 then 1 else 0)
    ensures Or(a, b) / 2 == Or(a / 2, b / 2) && Or(a, b) % 2 == (if a % 2 == 1 || b % 2 == 1 then 1 else 0)
    ensures Xor(a, b) / 2 == Xor(a / 2, b / 2) && Xor(a, b) % 2 == (if a % 2 != b % 2 then 1 else 0)
  {
  }

  lemma {:induction false} OrCommute(a: nat, b: nat)
    ensures Or(a, b) == Or(b, a)
  {
    if a != 0 && b != 0 {
      OrCommute(a / 2, b / 2);
    }
  }

  /** Fields that do not overlap are joined by `|` as if added. */
  lemma {:induction false} OrDisjoint(a: nat, b: nat, k: nat)
    requires a < Pow2(k) && b % Pow2(k) == 0
    ensures Or(a, b) == a + b
  {
    if a != 0 && b != 0 {
      assert k > 0;
      var q := b / Pow2(k);
      assert b == Pow2(k) * q == 2 * (Pow2(k - 1) * q);
      assert b / 2 == Pow2(k - 1) * q;
      MultipleMod(Pow2(k - 1), q);
      OrDisjoint(a / 2, b / 2, k - 1);
    }
  }

  lemma MultipleMod(m: int, q: int)
    requires m > 0
    ensures (m * q) % m == 0
  {
    DivModUnique(m * q, m, q, 0);
  }

  lemma DivModUnique(x: int, m: int, q: int, r: int)
    requires m > 0 && 0 <= r < m && x == m * q + r
    ensures x / m == q && x % m == r
  {
    SmallMultiple(m, x / m - q, r - x % m);
  }

  /** A multiple of m strictly between -m and m is zero. */
  lemma SmallMultiple(m: int, d: int, e: int)
    requires m > 0 && -m < e < m && m * d == e
    ensures d == 0
  {
    if d >= 1 {
      MulMono(m, 1, d);
    } else if d <= -1 {
      MulMono(m, d, -1);
    }
  }

  lemma MulMono(m: int, a: int, b: int)
    requires 0 <= m && a <= b
    ensures m * a <= m * b
  {
  }

  lemma {:induction false} XorSelf(a: nat, b: nat)
    ensures Xor(a, Xor(a, b)) == b
  {
    if a == 0 || b == 0 {
      XorCancel(a);
    } else {
      XorSelf(a / 2, b / 2);
      var x := Xor(a, b);
      assert x / 2 == Xor(a / 2, b / 2);
      assert x % 2 == if a % 2 != b % 2 then 1 else 0;
      if x == 0 {
        assert Xor(a / 2, 0) == a / 2;
      }
    }
  }

  lemma {:induction false} XorCancel(a: nat)
    ensures Xor(a, a) == 0
  {
    if a != 0 {
      XorCancel(a / 2);
    }
  }

  lemma {:induction false} BitBounds(a: nat, b: nat, k: nat)
    requires a < Pow2(k) && b < Pow2(k)
    ensures And(a, b) < Pow2(k) && Or(a, b) < Pow2(k) && Xor(a, b) < Pow2(k)
  {
    if a != 0 && b != 0 {
      BitBounds(a / 2, b / 2, k - 1);
    }
  }

  lemma {:induction false} XorNull(a: nat, b: nat)
    ensures Xor(a, b) == 0 <==> a == b
  {
    if a != 0 && b != 0 {
      XorNull(a / 2, b / 2);
    }
  }

  // ---------- congruence ----------

  lemma ModShift(x: int, m: int, k: int)
    requires m > 0
    ensures (x + m * k) % m == x % m
  {
    var q, r := x / m, x % m;
    assert x + m * k == m * (q + k) + r by {
      assert m * (q + k) == m * q + m * k;
    }
    DivModUnique(x + m * k, m, q + k, r);
  }

  // ---------- positional digit sums ----------

  /** The number whose base-`base` digits, least significant first, are `d`; digits may have any sign. */
  function Eval(base: int, d: seq<int>): int {
    if |d| == 0 then 0 else d[0] + base * Eval(base, d[1..])
  }

  lemma {:induction false} EvalAppend(base: int, d: seq<int>, e: seq<int>)
    ensures Eval(base, d + e) == Eval(base, d) + Pow(base, |d|) * Eval(base, e)
  {
    if |d| == 0 {
      assert d + e == e;
    } else {
      EvalAppend(base, d[1..], e);
      assert (d + e)[1..] == d[1..] + e;
      var p, x := Pow(base, |d| - 1), Eval(base, e);
      assert base * (p * x) == (base * p) * x;
    }
  }

  lemma EvalSplit(base: int, d: seq<int>, i: nat)
    requires i <= |d|
    ensures Eval(base, d) == Eval(base, d[..i]) + Pow(base, i) * Eval(base, d[i..])
  {
    hide Eval;
    hide Pow;
    EvalAppend(base, d[..i], d[i..]);
    assert d == d[..i] + d[i..];
  }

  lemma EvalOne(base: int, x: int)
    ensures Eval(base, [x]) == x
  {
    assert [x][1..] == [];
  }

  lemma EvalFour(base: int, d: seq<int>)
    requires |d| == 4
    ensures Eval(base, d) == d[0] + base * (d[1] + base * (d[2] + base * d[3]))
  {
    assert d[1..] == [d[1], d[2], d[3]] && d[1..][1..] == [d[2], d[3]] && d[1..][1..][1..] == [d[3]];
    EvalOne(base, d[3]);
    assert Eval(base, [d[2], d[3]]) == d[2] + base * d[3];
    assert Eval(base, [d[1], d[2], d[3]]) == d[1] + base * (d[2] + base * d[3]);
  }

  lemma EvalHead(base: int, d: seq<int>)
    requires |d| > 0
    ensures Eval(base, d) == d[0] + base * Eval(base, d[1..])
  {
  }

  /** Changing one digit changes the sum by the weighted difference. */
  lemma EvalUpdate(base: int, d: seq<int>, i: nat, v: int)
    requires i < |d|
    ensures Eval(base, d[i := v]) == Eval(base, d) + Pow(base, i) * (v - d[i])
  {
    hide Eval;
    hide Pow;
    var e := d[i := v];
    EvalSplit(base, d, i);
    EvalSplit(base, e, i);
    assert e[..i] == d[..i];
    assert e[i..][1..] == d[i..][1..];
    EvalHead(base, e[i..]);
    EvalHead(base, d[i..]);
    var p, x, y := Pow(base, i), Eval(base, d[i..]), v - d[i];
    assert p * (x + y) == p * x + p * y;
  }

  lemma {:induction false} PowIsPow2(e: nat)
    ensures Pow(2, e) == Pow2(e)
  {
    if e > 0 {
      PowIsPow2(e - 1);
    }
  }

  lemma {:induction false} EvalZeros(base: int, d: seq<int>)
    requires forall i :: 0 <= i < |d| ==> d[i] == 0
    ensures Eval(base, d) == 0
  {
    if |d| > 0 {
      EvalZeros(base, d[1..]);
    }
  }

  /** A string of digits in [0, base) is below base^length. */
  lemma {:induction false} EvalBound(base: int, d: seq<int>)
    requires base > 0
    requires forall i :: 0 <= i < |d| ==> 0 <= d[i] < base
    ensures 0 <= Eval(base, d) < Pow(base, |d|)
  {
    if |d| > 0 {
      EvalBound(base, d[1..]);
      DigitBound(base, d[0], Eval(base, d[1..]), Pow(base, |d| - 1));
    }
  }

  lemma DigitBound(base: int, d: int, x: int, p: int)
    requires 0 <= d < base && 0 <= x < p
    ensures 0 <= d + base * x < base * p
  {
    MulMono(base, x, p - 1);
    MulMono(base, 0, x);
    assert base * (p - 1) == base * p - base;
  }

  /** Digits in [0, base) are determined by the number and the length. */
  lemma {:induction false} EvalInjective(base: int, d: seq<int>, e: seq<int>)
    requires base > 0 && |d| == |e|
    requires forall i :: 0 <= i < |d| ==> 0 <= d[i] < base && 0 <= e[i] < base
    requires Eval(base, d) == Eval(base, e)
    ensures d == e
  {
    if |d| > 0 {
      var x, y := Eval(base, d[1..]), Eval(base, e[1..]);
      DivModUnique(Eval(base, d), base, x, d[0]);
      DivModUnique(Eval(base, e), base, y, e[0]);
      EvalInjective(base, d[1..], e[1..]);
      assert d == [d[0]] + d[1..] && e == [e[0]] + e[1..];
    }
  }
}
