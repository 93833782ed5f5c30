/**
 Columns of schoolbook products of five-limb numbers, shared by the scalar and the field code.
 */
module Columns {
  import opened Numbers

  /**
   Column k of the product of two five-limb numbers: the sum the mul64x64_128 / add128 chains build.
   */
  function Column(a: seq<int>, b: seq<int>, k: nat): int
    requires |a| == 5 && |b| == 5
  {
    match k
    case 0 => a[0] * b[0]
    case 1 => a[0] * b[1] + a[1] * b[0]
    case 2 => a[0] * b[2] + a[1] * b[1] + a[2] * b[0]
    case 3 => a[0] * b[3] + a[1] * b[2] + a[2] * b[1] + a[3] * b[0]
    case 4 => a[0] * b[4] + a[1] * b[3] + a[2] * b[2] + a[3] * b[1] + a[4] * b[0]
    case 5 => a[1] * b[4] + a[2] * b[3] + a[3] * b[2] + a[4] * b[1]
    case 6 => a[2] * b[4] + a[3] * b[3] + a[4] * b[2]
    case 7 => a[3] * b[4] + a[4] * b[3]
    case 8 => a[4] * b[4]
    case _ => 0
  }

  lemma ProductBelow(x: int, y: int, b: int)
    requires 0 <= x < b && 0 <= y < b
    ensures 0 <= x * y < b * b
  {
    MulMono(x, y, b);
    MulMono(b, x, b - 1);
  }
}
