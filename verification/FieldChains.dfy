/**
 The exponentiation chains of curve25519-donna-helpers.h. Exponents are tracked as
 2^k - 1 with k up to 250; each method leaves z untouched unless it is the output.
 */
module FieldChains {
  import opened Numbers
  import opened Field25519

  /** 2^k - 1. */
  function Ones(k: nat): nat {
    Pow2(k) - 1
  }

  lemma {:induction false} FPowPow(x: int, m: nat, n: nat)
    ensures FPow(FPow(x, m), n) == FPow(x, m * n)
  {
    hide FMul;
    if n == 0 {
      assert FPow(x, 0) == 1;
    } else {
      FPowPow(x, m, n - 1);
      FPowAdd(x, m * (n - 1), m);
      assert m * (n - 1) + m == m * n;
    }
  }

  /** z^(2^a - 1) squared b times, times z^(2^b - 1), is z^(2^(a+b) - 1). */
  lemma Chain(z: int, a: nat, b: nat)
    ensures FMul(FPow(FPow(z, Ones(a)), Pow2(b)), FPow(z, Ones(b))) == FPow(z, Ones(a + b))
  {
    hide FMul;
    hide FPow;
    FPowPow(z, Ones(a), Pow2(b));
    FPowAdd(z, Ones(a) * Pow2(b), Ones(b));
    Pow2Add(a, b);
    OnesTimes(Pow2(a), Pow2(b));
  }

  lemma OnesTimes(x: int, y: int)
    ensures (x - 1) * y == x * y - y
  {
  }

  /** curve25519_pow_two5mtwo0_two250mtwo0: from z^(2^5 - 1) to z^(2^250 - 1), in place. */
  method PowTwo250(b: array<u64>, ghost z: int)
    requires b.Length == 5 && Wide(b[..]) && Res(b[..]) == FPow(z, Ones(5))
    modifies b
    ensures Red(b[..]) && Res(b[..]) == FPow(z, Ones(250))
  {
    hide FPow;
    hide FMul;
    hide Res;
    hide Ones;
    hide Pow2;
    var t0, c := new u64[5], new u64[5];
    Chain(z, 5, 5);
    SquareTimes(t0, b, 5);
    Mul(b, t0, b);
    Chain(z, 10, 10);
    SquareTimes(t0, b, 10);
    Mul(c, t0, b);
    Chain(z, 20, 20);
    SquareTimes(t0, c, 20);
    Mul(t0, t0, c);
    Chain(z, 40, 10);
    SquareTimes(t0, t0, 10);
    Mul(b, t0, b);
    Chain(z, 50, 50);
    SquareTimes(t0, b, 50);
    Mul(c, t0, b);
    Chain(z, 100, 100);
    SquareTimes(t0, c, 100);
    Mul(t0, t0, c);
    Chain(z, 200, 50);
    SquareTimes(t0, t0, 50);
    Mul(b, t0, b);
  }

  /** The start of both chains: a = z^11 and b = z^31. */
  method PowElevenAndOnes(a: array<u64>, b: array<u64>, z: array<u64>)
    requires a.Length == 5 && b.Length == 5 && z.Length == 5
    requires a != b && a != z && b != z && Wide(z[..])
    modifies a, b
    ensures Red(a[..]) && Res(a[..]) == FPow(Res(z[..]), 11)
    ensures Red(b[..]) && Res(b[..]) == FPow(Res(z[..]), Ones(5))
  {
    hide FMul;
    hide FPow;
    hide Res;
    ghost var x := Res(z[..]);
    var t0 := new u64[5];
    SmallChain(x);
    hide Pow2;
    SquareTimes(a, z, 1);
    SquareTimes(t0, a, 2);
    Mul(b, t0, z);
    Mul(a, b, a);
    SquareTimes(t0, a, 1);
    Mul(b, t0, b);
  }

  lemma SmallChain(x: int)
    requires 0 <= x < P
    ensures FPow(FPow(FPow(x, Pow2(1)), Pow2(2)), 1) == FPow(FPow(x, Pow2(1)), Pow2(2))
    ensures FMul(FPow(FPow(x, Pow2(1)), Pow2(2)), x) == FPow(x, 9)
    ensures FMul(FPow(x, 9), FPow(x, Pow2(1))) == FPow(x, 11)
    ensures FMul(FPow(FPow(x, 11), Pow2(1)), FPow(x, 9)) == FPow(x, Ones(5))
  {
    hide FMul;
    assert Pow2(1) == 2 && Pow2(2) == 4 && Ones(5) == 31;
    hide FPow;
    FPowOne(x);
    FPowOne(FPow(FPow(x, 2), 4));
    FPowPow(x, 2, 4);
    FPowAdd(x, 8, 1);
    FPowAdd(x, 9, 2);
    FPowPow(x, 11, 2);
    FPowAdd(x, 22, 9);
  }

  /** curve25519_recip: z^(2^255 - 21) = z^(p - 2). */
  method Recip(out: array<u64>, z: array<u64>)
    requires out.Length == 5 && z.Length == 5 && Wide(z[..])
    modifies out
    ensures Red(out[..])
    ensures Res(out[..]) == FPow(old(Res(z[..])), Pow2(255) - 21)
  {
    hide FPow;
    hide FMul;
    hide Res;
    ghost var x := Res(z[..]);
    var a, b := new u64[5], new u64[5];
    PowElevenAndOnes(a, b, z);
    PowTwo250(b, x);
    SquareTimes(b, b, 5);
    Mul(out, b, a);
    RecipChain(x);
  }

  lemma RecipChain(x: int)
    ensures Pow2(255) >= 32
    ensures FMul(FPow(FPow(x, Ones(250)), Pow2(5)), FPow(x, 11)) == FPow(x, Pow2(255) - 21)
  {
    hide FMul;
    hide FPow;
    hide Pow2;
    FPowPow(x, Ones(250), Pow2(5));
    ShiftedOnes();
    FPowAdd(x, Ones(250) * Pow2(5), 11);
  }

  lemma ShiftedOnes()
    ensures Pow2(255) >= 32 && Ones(250) * Pow2(5) == Pow2(255) - 32
  {
    assert Pow2(5) == 32;
    hide Pow2;
    Pow2Add(250, 5);
    Pow2Mono(5, 255);
  }

  /** curve25519_pow_two252m3: z^(2^252 - 3) = z^((p - 5) / 8). */
  method PowTwo252m3(out: array<u64>, z: array<u64>)
    requires out.Length == 5 && z.Length == 5 && Wide(z[..])
    modifies out
    ensures Red(out[..])
    ensures Res(out[..]) == FPow(old(Res(z[..])), Pow2(252) - 3)
  {
    hide FPow;
    hide FMul;
    hide Res;
    ghost var x := Res(z[..]);
    var c, b := new u64[5], new u64[5];
    PowElevenAndOnes(c, b, z);
    PowTwo250(b, x);
    SquareTimes(b, b, 2);
    Mul(out, b, z);
    RootChain(x);
  }

  lemma RootChain(x: int)
    ensures Pow2(252) >= 4
    ensures 0 <= x < P ==> FMul(FPow(FPow(x, Ones(250)), Pow2(2)), x) == FPow(x, Pow2(252) - 3)
  {
    hide FMul;
    hide FPow;
    FPowPow(x, Ones(250), Pow2(2));
    Pow2Add(250, 2);
    assert Pow2(2) == 4;
    Pow2Mono(2, 252);
    FPowAdd(x, Ones(250) * Pow2(2), 1);
    assert Ones(250) * 4 == Pow2(252) - 4;
    if 0 <= x < P {
      FPowOne(x);
    }
  }

  // ---------- inverses ----------

  const PMINUS1: nat := 0x7fffffffffffffffffffffffffffffffffffffffffffffffffffffffffffffec

  /** Fermat's little theorem for p, a hypothesis wherever it is used. */
  ghost predicate Fermat() {
    forall z :: 0 < z < P ==> FPow(z, PMINUS1) == 1
  }

  /** Given Fermat's theorem, curve25519_recip inverts every nonzero residue. */
  lemma RecipInverts(z: int)
    requires Fermat() && 0 < z < P
    ensures Pow2(255) >= 32 && FMul(z, FPow(z, Pow2(255) - 21)) == 1
  {
    hide FMul;
    RecipChain(z);
    Pow2Of256();
    FPowAdd(z, Pow2(255) - 21, 1);
    assert Pow2(255) - 21 + 1 == PMINUS1;
    hide FPow;
    FPowOne(z);
    FMulCommute(z, FPow(z, Pow2(255) - 21));
  }
}
