/**
 Scalars modulo the group order: five limbs of 56 bits.
 */
module Scalars {
  import opened Numbers

  /** The order of the base point, 2^252 + 27742317777372353535851937790883648493. */
  const L := 0x1000000000000000000000000000000014def9dea2f79cd65812631a5cf5d3ed

  /** The number held in five limbs. */
  function Val(s: seq<int>): int
    requires |s| == 5
  {
    s[0] + 0x100_0000_0000_0000 * s[1] + 0x1_0000_0000_0000_0000_0000_0000_0000 * s[2]
        + 0x100_0000_0000_0000_0000_0000_0000_0000_0000_0000_0000 * s[3]
        + 0x1_0000_0000_0000_0000_0000_0000_0000_0000_0000_0000_0000_0000_0000_0000 * s[4]
  }

  /** Every limb is below 2^56, and the top one below `top`. */
  predicate Limbs(s: seq<int>, top: int) {
    && |s| == 5
    && 0 <= s[0] < 0x100_0000_0000_0000 && 0 <= s[1] < 0x100_0000_0000_0000 && 0 <= s[2] < 0x100_0000_0000_0000
        && 0 <= s[3] < 0x100_0000_0000_0000
    && 0 <= s[4] < top <= 0x100_0000_0000_0000
  }

  lemma ValIsEval(s: seq<int>)
    requires |s| == 5
    ensures Val(s) == Eval(0x100_0000_0000_0000, s)
  {
    var s1, s2, s3, s4 := s[1..], s[1..][1..], s[1..][1..][1..], s[1..][1..][1..][1..];
    assert s4[1..] == [];
    assert Eval(0x100_0000_0000_0000, s4) == s[4];
    assert Eval(0x100_0000_0000_0000, s3) == s[3] + 0x100_0000_0000_0000 * s[4];
    assert Eval(0x100_0000_0000_0000, s2) == s[2] + 0x100_0000_0000_0000 * (s[3] + 0x100_0000_0000_0000 * s[4]);
  }
}
