/**
 Field elements to bytes and back: curve25519_expand and curve25519_contract.
 Encoding is canonical: whatever limbs a residue is held in, the bytes written are those of the residue.
 */
module FieldBytes {
  import opened Numbers
  import opened Bytes
  import opened Field25519

  // ---------- expand ----------

  lemma Join(x: int, y: int, s: nat)
    requires 0 <= x < 0x1_0000_0000_0000_0000 && 0 <= y < 0x1_0000_0000_0000_0000
    ensures s == 51 ==>
        Or(x / 0x8_0000_0000_0000, (y * 0x2000) % 0x1_0000_0000_0000_0000)
        == x / 0x8_0000_0000_0000 + 0x2000 * (y % 0x8_0000_0000_0000)
    ensures s == 38 ==>
        Or(x / 0x40_0000_0000, (y * 0x400_0000) % 0x1_0000_0000_0000_0000)
        == x / 0x40_0000_0000 + 0x400_0000 * (y % 0x40_0000_0000)
    ensures s == 25 ==>
        Or(x / 0x200_0000, (y * 0x80_0000_0000) % 0x1_0000_0000_0000_0000)
        == x / 0x200_0000 + 0x80_0000_0000 * (y % 0x200_0000)
  {
    hide Or;
    FieldPowers();
    if s == 51 {
      WordOf(x / 0x8_0000_0000_0000, y, 13, 0x2000, 0x8_0000_0000_0000);
    } else if s == 38 {
      WordOf(x / 0x40_0000_0000, y, 26, 0x400_0000, 0x40_0000_0000);
    } else if s == 25 {
      WordOf(x / 0x200_0000, y, 39, 0x80_0000_0000, 0x200_0000);
    }
  }

  lemma FieldPowers()
    ensures Pow2(13) == 0x2000 && Pow2(26) == 0x400_0000 && Pow2(39) == 0x80_0000_0000 && Pow2(12) == 0x1000
    ensures Pow2(25) == 0x200_0000 && Pow2(38) == 0x40_0000_0000 && Pow2(51) == 0x8_0000_0000_0000
  {
    assert Pow2(12) == 0x1000;
    assert Pow2(13) == 2 * Pow2(12);
    Pow2Add(13, 12);
    Pow2Add(13, 13);
    Pow2Add(26, 12);
    Pow2Add(26, 13);
    Pow2Add(26, 25);
  }

  lemma ExpandSum(x: seq<int>, r: seq<int>)
    requires AreWords(x, 4) && |r| == 5
    requires r[0] == x[0] % 0x8_0000_0000_0000
    requires r[1] == (x[0] / 0x8_0000_0000_0000 + 0x2000 * (x[1] % 0x8_0000_0000_0000)) % 0x8_0000_0000_0000
    requires r[2] == (x[1] / 0x40_0000_0000 + 0x400_0000 * (x[2] % 0x40_0000_0000)) % 0x8_0000_0000_0000
    requires r[3] == (x[2] / 0x200_0000 + 0x80_0000_0000 * (x[3] % 0x200_0000)) % 0x8_0000_0000_0000
    requires r[4] == (x[3] / 0x1000) % 0x8_0000_0000_0000
    ensures Below(r, 0x8_0000_0000_0000)
    ensures FV(r) == (x[0] + 0x1_0000_0000_0000_0000 * x[1] + 0x1_0000_0000_0000_0000_0000_0000_0000_0000 * x[2]
        + 0x1_0000_0000_0000_0000_0000_0000_0000_0000_0000_0000_0000_0000 * x[3])
        % 0x8000_0000_0000_0000_0000_0000_0000_0000_0000_0000_0000_0000_0000_0000_0000_0000
  {
    hide FV;
    var top := LimbForms(x, r);
    LimbTotal(x, r, top);
    BelowValue(r);
    DivModUnique(x[0] + 0x1_0000_0000_0000_0000 * x[1] + 0x1_0000_0000_0000_0000_0000_0000_0000_0000 * x[2]
        + 0x1_0000_0000_0000_0000_0000_0000_0000_0000_0000_0000_0000_0000 * x[3],
        0x8000_0000_0000_0000_0000_0000_0000_0000_0000_0000_0000_0000_0000_0000_0000_0000, top, FV(r));
  }

  lemma LimbForms(x: seq<int>, r: seq<int>) returns (top: int)
    requires AreWords(x, 4) && |r| == 5
    requires r[1] == (x[0] / 0x8_0000_0000_0000 + 0x2000 * (x[1] % 0x8_0000_0000_0000)) % 0x8_0000_0000_0000
    requires r[2] == (x[1] / 0x40_0000_0000 + 0x400_0000 * (x[2] % 0x40_0000_0000)) % 0x8_0000_0000_0000
    requires r[3] == (x[2] / 0x200_0000 + 0x80_0000_0000 * (x[3] % 0x200_0000)) % 0x8_0000_0000_0000
    requires r[4] == (x[3] / 0x1000) % 0x8_0000_0000_0000
    ensures r[1] == x[0] / 0x8_0000_0000_0000 + 0x2000 * (x[1] % 0x40_0000_0000)
    ensures r[2] == x[1] / 0x40_0000_0000 + 0x400_0000 * (x[2] % 0x200_0000)
    ensures r[3] == x[2] / 0x200_0000 + 0x80_0000_0000 * (x[3] % 0x1000)
    ensures x[3] / 0x1000 == r[4] + 0x8_0000_0000_0000 * top
  {
    FieldLimb1(x[0], x[1]);
    FieldLimb2(x[1], x[2]);
    FieldLimb3(x[2], x[3]);
    top := x[3] / 0x8000_0000_0000_0000;
  }

  lemma LimbTotal(x: seq<int>, r: seq<int>, top: int)
    requires AreWords(x, 4) && |r| == 5 && r[0] == x[0] % 0x8_0000_0000_0000
    requires r[1] == x[0] / 0x8_0000_0000_0000 + 0x2000 * (x[1] % 0x40_0000_0000)
    requires r[2] == x[1] / 0x40_0000_0000 + 0x400_0000 * (x[2] % 0x200_0000)
    requires r[3] == x[2] / 0x200_0000 + 0x80_0000_0000 * (x[3] % 0x1000)
    requires x[3] / 0x1000 == r[4] + 0x8_0000_0000_0000 * top
    ensures x[0] + 0x1_0000_0000_0000_0000 * x[1] + 0x1_0000_0000_0000_0000_0000_0000_0000_0000 * x[2]
        + 0x1_0000_0000_0000_0000_0000_0000_0000_0000_0000_0000_0000_0000 * x[3]
        == FV(r) + 0x8000_0000_0000_0000_0000_0000_0000_0000_0000_0000_0000_0000_0000_0000_0000_0000 * top
  {
  }

  lemma FieldLimb1(x: int, y: int)
    requires 0 <= x < 0x1_0000_0000_0000_0000 && 0 <= y < 0x1_0000_0000_0000_0000
    ensures (x / 0x8_0000_0000_0000 + 0x2000 * (y % 0x8_0000_0000_0000)) % 0x8_0000_0000_0000
        == x / 0x8_0000_0000_0000 + 0x2000 * (y % 0x40_0000_0000)
  {
    DivModUnique(y, 0x40_0000_0000, 0x2000 * (y / 0x8_0000_0000_0000) + (y % 0x8_0000_0000_0000) / 0x40_0000_0000,
        (y % 0x8_0000_0000_0000) % 0x40_0000_0000);
    DivModUnique(x / 0x8_0000_0000_0000 + 0x2000 * (y % 0x8_0000_0000_0000), 0x8_0000_0000_0000,
        (y % 0x8_0000_0000_0000) / 0x40_0000_0000, x / 0x8_0000_0000_0000 + 0x2000 * (y % 0x40_0000_0000));
  }

  lemma FieldLimb2(x: int, y: int)
    requires 0 <= x < 0x1_0000_0000_0000_0000 && 0 <= y < 0x1_0000_0000_0000_0000
    ensures (x / 0x40_0000_0000 + 0x400_0000 * (y % 0x40_0000_0000)) % 0x8_0000_0000_0000
        == x / 0x40_0000_0000 + 0x400_0000 * (y % 0x200_0000)
  {
    DivModUnique(y, 0x200_0000, 0x2000 * (y / 0x40_0000_0000) + (y % 0x40_0000_0000) / 0x200_0000,
        (y % 0x40_0000_0000) % 0x200_0000);
    DivModUnique(x / 0x40_0000_0000 + 0x400_0000 * (y % 0x40_0000_0000), 0x8_0000_0000_0000,
        (y % 0x40_0000_0000) / 0x200_0000, x / 0x40_0000_0000 + 0x400_0000 * (y % 0x200_0000));
  }

  lemma FieldLimb3(x: int, y: int)
    requires 0 <= x < 0x1_0000_0000_0000_0000 && 0 <= y < 0x1_0000_0000_0000_0000
    ensures (x / 0x200_0000 + 0x80_0000_0000 * (y % 0x200_0000)) % 0x8_0000_0000_0000
        == x / 0x200_0000 + 0x80_0000_0000 * (y % 0x1000)
  {
    DivModUnique(y, 0x1000, 0x2000 * (y / 0x200_0000) + (y % 0x200_0000) / 0x1000, (y % 0x200_0000) % 0x1000);
    DivModUnique(x / 0x200_0000 + 0x80_0000_0000 * (y % 0x200_0000), 0x8_0000_0000_0000, (y % 0x200_0000) / 0x1000,
        x / 0x200_0000 + 0x80_0000_0000 * (y % 0x1000));
  }

  /** curve25519_expand: 32 bytes, the top bit dropped, not reduced. */
  method Expand(out: array<u64>, input: seq<u8>)
    requires out.Length == 5 && |input| == 32
    modifies out
    ensures Below(out[..], 0x8_0000_0000_0000)
    ensures FV(out[..]) == LE(input) % 0x8000_0000_0000_0000_0000_0000_0000_0000_0000_0000_0000_0000_0000_0000_0000_0000
  {
    hide Or;
    hide Words;
    hide FV;
    var x := Words(input);
    WordsValue(input);
    FourWords(x);
    Join(x[0], x[1], 51);
    Join(x[1], x[2], 38);
    Join(x[2], x[3], 25);
    var x0: u64, x1: u64, x2: u64, x3: u64 := x[0], x[1], x[2], x[3];
    out[0] := x0 % 0x8_0000_0000_0000; x0 := Or(x0 / 0x8_0000_0000_0000,
        (x1 as int * 0x2000) % 0x1_0000_0000_0000_0000);
    out[1] := x0 % 0x8_0000_0000_0000; x1 := Or(x1 / 0x40_0000_0000,
        (x2 as int * 0x400_0000) % 0x1_0000_0000_0000_0000);
    out[2] := x1 % 0x8_0000_0000_0000; x2 := Or(x2 / 0x200_0000,
        (x3 as int * 0x80_0000_0000) % 0x1_0000_0000_0000_0000);
    out[3] := x2 % 0x8_0000_0000_0000; x3 := x3 / 0x1000;
    out[4] := x3 % 0x8_0000_0000_0000;
    ExpandSum(x, out[..]);
  }

  // ---------- contract ----------

  /** Limb 0 below b, limbs 1 to 3 in their 51 bits. */
  predicate OneOver(t: seq<int>, b: int)
    requires |t| == 5
  {
    t[0] < b && t[1] < 0x8_0000_0000_0000 && t[2] < 0x8_0000_0000_0000 && t[3] < 0x8_0000_0000_0000
  }

  /** curve25519_contract_carry. */
  method CarryPass(t: seq<u64>) returns (r: seq<u64>)
    requires Below(t, 0x8000_0000_0000_0000)
    ensures |r| == 5 && r[0] < 0x8_0000_0000_0000 && r[1] < 0x8_0000_0000_0000 && r[2] < 0x8_0000_0000_0000
        && r[3] < 0x8_0000_0000_0000
    ensures r[4] <= t[4] + 0x2000
    ensures FV(r) == FV(t)
    ensures OneOver(t, 0x8_0000_0000_0000) ==> r == t
    ensures OneOver(t, 0x10_0000_0000_0000) ==>
              r[4] == t[4] || (r[4] == t[4] + 1 && r[3] == 0 && r[2] == 0 && r[1] == 0
                  && r[0] == t[0] - 0x8_0000_0000_0000)
  {
    var c0: u64, t0: u64 := t[0] / 0x8_0000_0000_0000, t[0] % 0x8_0000_0000_0000;
    var t1: u64 := t[1] + c0; var c1: u64 := t1 / 0x8_0000_0000_0000; t1 := t1 % 0x8_0000_0000_0000;
    var t2: u64 := t[2] + c1; var c2: u64 := t2 / 0x8_0000_0000_0000; t2 := t2 % 0x8_0000_0000_0000;
    var t3: u64 := t[3] + c2; var c3: u64 := t3 / 0x8_0000_0000_0000; t3 := t3 % 0x8_0000_0000_0000;
    r := [t0, t1, t2, t3, t[4] + c3];
  }

  /** Limbs 1 to 4 carried, limb 0 at most a little over. */
  predicate Settled(t: seq<int>) {
    && |t| == 5
    && 0 <= t[0] < 0x8_0000_0000_0000 + 0x4_0000 && 0 <= t[1] < 0x8_0000_0000_0000 && 0 <= t[2] < 0x8_0000_0000_0000
        && 0 <= t[3] < 0x8_0000_0000_0000 && 0 <= t[4] < 0x8_0000_0000_0000
  }

  /** curve25519_contract_carry_full: a carry pass with the top folded back times 19. */
  method CarryFull(t: seq<u64>) returns (r: seq<u64>, ghost q: nat)
    requires Below(t, 0x8000_0000_0000_0000)
    ensures Settled(r)
    ensures FV(t) == FV(r) + TimesP(q)
    ensures Settled(t) ==> Below(r, 0x8_0000_0000_0000) && q <= 1 && (q == 1 <==> FV(t) >= TWO255)
  {
    r := CarryPass(t);
    var c: u64 := r[4] / 0x8_0000_0000_0000;
    q := c;
    r := [r[0] + 19 * c, r[1], r[2], r[3], r[4] % 0x8_0000_0000_0000];
  }

  lemma BelowValue(t: seq<int>)
    requires Below(t, 0x8_0000_0000_0000)
    ensures 0 <= FV(t) < TWO255
  {
  }

  /** The limbs of the residue itself. */
  method Freeze(input: seq<u64>) returns (t: seq<u64>)
    requires Below(input, 0x8000_0000_0000_0000)
    ensures Below(t, 0x8_0000_0000_0000)
    ensures FV(t) == Mod(FV(input))
  {
    hide FV;
    ghost var q1, q2, q3;
    t, q1 := CarryFull(input);
    t, q2 := CarryFull(t);
    BelowValue(t);
    ghost var v := FV(t);
    AddSmall(t);
    t := [t[0] + 19, t[1], t[2], t[3], t[4]];
    t, q3 := CarryFull(t);
    ghost var w := FV(t);
    SameResidue(FV(input), v, q1 + q2);
    Offset(t);
    t := [t[0] + (0x8_0000_0000_0000 - 19), t[1] + (0x8_0000_0000_0000 - 1), t[2] + (0x8_0000_0000_0000 - 1),
        t[3] + (0x8_0000_0000_0000 - 1), t[4] + (0x8_0000_0000_0000 - 1)];
    ghost var u := FV(t);
    t := CarryPass(t);
    t := DropTop(t);
    FinalResidue(v, w, q3, u, FV(t));
  }

  lemma AddSmall(t: seq<int>)
    requires |t| == 5
    ensures FV([t[0] + 19, t[1], t[2], t[3], t[4]]) == FV(t) + 19
  {
  }

  lemma Offset(t: seq<int>)
    requires |t| == 5
    ensures FV([t[0] + (0x8_0000_0000_0000 - 19), t[1] + (0x8_0000_0000_0000 - 1), t[2] + (0x8_0000_0000_0000 - 1),
        t[3] + (0x8_0000_0000_0000 - 1), t[4] + (0x8_0000_0000_0000 - 1)])
            == FV(t) + 0x8000_0000_0000_0000_0000_0000_0000_0000_0000_0000_0000_0000_0000_0000_0000_0000 - 19
  {
  }

  /** `t[4] &= 2^51 - 1`. */
  method DropTop(t: seq<u64>) returns (r: seq<u64>)
    requires |t| == 5 && t[0] < 0x8_0000_0000_0000 && t[1] < 0x8_0000_0000_0000 && t[2] < 0x8_0000_0000_0000
        && t[3] < 0x8_0000_0000_0000
    ensures Below(r, 0x8_0000_0000_0000)
        && FV(r) == FV(t) % 0x8000_0000_0000_0000_0000_0000_0000_0000_0000_0000_0000_0000_0000_0000_0000_0000
  {
    r := [t[0], t[1], t[2], t[3], t[4] % 0x8_0000_0000_0000];
    DivModUnique(FV(t), 0x8000_0000_0000_0000_0000_0000_0000_0000_0000_0000_0000_0000_0000_0000_0000_0000,
        t[4] / 0x8_0000_0000_0000, FV(r));
  }

  lemma FinalResidue(v: int, w: int, q: int, u: int, r: int)
    requires 0 <= v < TWO255 && v + 19 == w + TimesP(q) && 0 <= q <= 1 && (q == 1 <==> v + 19 >= TWO255)
    requires u == w + 0x8000_0000_0000_0000_0000_0000_0000_0000_0000_0000_0000_0000_0000_0000_0000_0000 - 19
        && r == u % 0x8000_0000_0000_0000_0000_0000_0000_0000_0000_0000_0000_0000_0000_0000_0000_0000
    ensures r == Mod(v)
  {
    if q == 1 {
      DivModUnique(u, 0x8000_0000_0000_0000_0000_0000_0000_0000_0000_0000_0000_0000_0000_0000_0000_0000, 1, v - P);
    } else {
      DivModUnique(u, 0x8000_0000_0000_0000_0000_0000_0000_0000_0000_0000_0000_0000_0000_0000_0000_0000, 1, v);
    }
  }

  lemma PackSum(t: seq<int>)
    requires Below(t, 0x8_0000_0000_0000)
    ensures (t[0] + 0x8_0000_0000_0000 * (t[1] % 0x2000))
        + 0x1_0000_0000_0000_0000 * (t[1] / 0x2000 + 0x40_0000_0000 * (t[2] % 0x400_0000))
            + 0x1_0000_0000_0000_0000_0000_0000_0000_0000 * (t[2] / 0x400_0000 + 0x200_0000 * (t[3] % 0x80_0000_0000))
                + 0x1_0000_0000_0000_0000_0000_0000_0000_0000_0000_0000_0000_0000
                * (t[3] / 0x80_0000_0000 + 0x1000 * t[4]) == FV(t)
  {
  }

  lemma PackWords(t: seq<int>)
    requires Below(t, 0x8_0000_0000_0000)
    ensures Or(t[0], (t[1] * 0x8_0000_0000_0000) % 0x1_0000_0000_0000_0000)
        == t[0] + 0x8_0000_0000_0000 * (t[1] % 0x2000)
    ensures Or(t[1] / 0x2000, (t[2] * 0x40_0000_0000) % 0x1_0000_0000_0000_0000)
        == t[1] / 0x2000 + 0x40_0000_0000 * (t[2] % 0x400_0000)
    ensures Or(t[2] / 0x400_0000, (t[3] * 0x200_0000) % 0x1_0000_0000_0000_0000)
        == t[2] / 0x400_0000 + 0x200_0000 * (t[3] % 0x80_0000_0000)
    ensures Or(t[3] / 0x80_0000_0000, (t[4] * 0x1000) % 0x1_0000_0000_0000_0000)
        == t[3] / 0x80_0000_0000 + 0x1000 * t[4]
  {
    hide Or;
    FieldPowers();
    WordOf(t[0], t[1], 51, 0x8_0000_0000_0000, 0x2000);
    WordOf(t[1] / 0x2000, t[2], 38, 0x40_0000_0000, 0x400_0000);
    WordOf(t[2] / 0x400_0000, t[3], 25, 0x200_0000, 0x80_0000_0000);
    WordOf(t[3] / 0x80_0000_0000, t[4], 12, 0x1000, 0x10_0000_0000_0000);
  }

  /** curve25519_contract into `out[at..at + 32]`: the 32 bytes of the residue. */
  method Contract(out: array<u8>, at: nat, input: array<u64>)
    requires input.Length == 5 && Below(input[..], 0x8000_0000_0000_0000) && at + 32 <= out.Length
    modifies out
    ensures LE(out[at..at + 32]) == Res(input[..])
    ensures out[..at] == old(out[..at]) && out[at + 32..] == old(out[at + 32..])
  {
    hide Or;
    hide FV;
    var t := Freeze(input[..]);
    PackSum(t);
    PackWords(t);
    var f0: u64 := Or(t[0], (t[1] as int * 0x8_0000_0000_0000) % 0x1_0000_0000_0000_0000);
    var f1: u64 := Or(t[1] / 0x2000, (t[2] as int * 0x40_0000_0000) % 0x1_0000_0000_0000_0000);
    var f2: u64 := Or(t[2] / 0x400_0000, (t[3] as int * 0x200_0000) % 0x1_0000_0000_0000_0000);
    var f3: u64 := Or(t[3] / 0x80_0000_0000, (t[4] as int * 0x1000) % 0x1_0000_0000_0000_0000);
    Store256(out, at, f0, f1, f2, f3);
  }

  /** Two 32-byte strings with the same little-endian value are the same string: the encoding is unique. */
  lemma EncodingUnique(a: seq<u8>, b: seq<u8>)
    requires |a| == |b| && LE(a) == LE(b)
    ensures a == b
  {
    EvalInjective(0x100, a, b);
  }

  /** contract(expand(b)): the top bit of b dropped and the rest reduced modulo p. */
  method Canonical(input: seq<u8>) returns (out: array<u8>)
    requires |input| == 32
    ensures fresh(out) && out.Length == 32
    ensures LE(out[..]) == Mod(LE(input)
        % 0x8000_0000_0000_0000_0000_0000_0000_0000_0000_0000_0000_0000_0000_0000_0000_0000)
  {
    hide FV;
    out := new u8[32];
    var t := new u64[5];
    Expand(t, input);
    Contract(out, 0, t);
    assert out[0..32] == out[..];
  }
}
