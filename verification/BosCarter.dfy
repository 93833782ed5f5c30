/**
 What the subtractive reduction keeps: the group sum of key times point, the common divisors of
 the keys, and the bounds that let the keys be compared on ever fewer limbs.
 Keys are `k`, points `p`; the first `n` entries are in the heap.
 */
module BosCarter {
  import opened Numbers
  import opened Scalars
  import opened ModmBatch
  import opened Groups

  // ---------- common divisors ----------

  ghost predicate CommonDivisor(d: int, k: seq<int>, n: nat)
    requires d > 0 && n <= |k|
  {
    forall i :: 0 <= i < n ==> k[i] % d == 0
  }

  /** g is the greatest common divisor of the first n keys: it has the same divisors as all of them together. */
  ghost predicate IsGcd(g: int, k: seq<int>, n: nat)
    requires n <= |k|
  {
    forall d :: d > 0 ==> (CommonDivisor(d, k, n) <==> g % d == 0)
  }

  lemma DividesSum(a: int, b: int, d: int)
    requires d > 0 && b % d == 0
    ensures (a - b) % d == 0 <==> a % d == 0
  {
    var q := b / d;
    assert b == d * q;
    ModShift(a, d, -q);
    assert a + d * -q == a - b;
  }

  lemma StepDivisors(k: seq<int>, n: nat, a: nat, b: nat, d: int)
    requires d > 0 && n <= |k| && a < n && b < n && a != b
    ensures CommonDivisor(d, k[a := k[a] - k[b]], n) <==> CommonDivisor(d, k, n)
  {
    var s := k[a := k[a] - k[b]];
    assert s[b] == k[b];
    if k[b] % d == 0 {
      DividesSum(k[a], k[b], d);
      assert forall i :: 0 <= i < n && i != a ==> s[i] == k[i];
      if CommonDivisor(d, s, n) {
        assert s[a] % d == 0;
      }
      if CommonDivisor(d, k, n) {
        assert k[a] % d == 0;
      }
    }
  }

  // ---------- the measure ----------

  function KeySum(k: seq<int>, n: nat): int
    requires n <= |k|
  {
    if n == 0 then 0 else KeySum(k, n - 1) + k[n - 1]
  }

  lemma {:induction false} KeySumUpdate(k: seq<int>, n: nat, a: nat, v: int)
    requires n <= |k| && a < |k|
    ensures KeySum(k[a := v], n) == KeySum(k, n) + if a < n then v - k[a] else 0
  {
    if n > 0 {
      KeySumUpdate(k, n - 1, a, v);
    }
  }

  lemma {:induction false} KeySumNat(k: seq<int>, n: nat)
    requires n <= |k| && forall i :: 0 <= i < n ==> k[i] >= 0
    ensures KeySum(k, n) >= 0
  {
    if n > 0 {
      KeySumNat(k, n - 1);
    }
  }

  // ---------- the sum of all entries ----------

  function Terms<P>(g: Group<P>, k: seq<int>, p: seq<P>, n: nat): (t: seq<P>)
    requires n <= |k| && n <= |p|
    ensures |t| == n && forall i :: 0 <= i < n ==> t[i] == Mul(g, k[i], p[i])
  {
    seq(n, i requires 0 <= i < n => Mul(g, k[i], p[i]))
  }

  function Total<P>(g: Group<P>, k: seq<int>, p: seq<P>, n: nat): P
    requires n <= |k| && n <= |p|
  {
    Sum(g, Terms(g, k, p, n))
  }

  /** [a - b]P + [b](Q + P) = [a]P + [b]Q. */
  lemma MoveMultiple<P(!new)>(g: Group<P>, a: int, b: nat, p: P, q: P)
    requires IsAbelian(g)
    ensures g.add(Mul(g, a - b, p), Mul(g, b, g.add(q, p))) == g.add(Mul(g, a, p), Mul(g, b, q))
  {
    hide IsAbelian;
    hide Mul;
    MulPlus(g, b, q, p);
    Commute(g, Mul(g, b, q), Mul(g, b, p));
    Assoc(g, Mul(g, a - b, p), Mul(g, b, p), Mul(g, b, q));
    MulAdd(g, a - b, b, p);
  }

  lemma StepTotal<P(!new)>(g: Group<P>, k: seq<int>, p: seq<P>, n: nat, a: nat, b: nat)
    requires IsAbelian(g) && n <= |k| && n <= |p| && a < n && b < n && a != b && k[b] >= 0
    ensures Total(g, k[a := k[a] - k[b]], p[b := g.add(p[b], p[a])], n) == Total(g, k, p, n)
  {
    hide IsAbelian;
    hide Mul;
    hide Sum;
    var s, q := k[a := k[a] - k[b]], p[b := g.add(p[b], p[a])];
    var t := Terms(g, k, p, n);
    var x, y := Mul(g, s[a], q[a]), Mul(g, s[b], q[b]);
    MoveMultiple(g, k[a], k[b], p[a], p[b]);
    SumExchange(g, t, a, b, x, y);
    assert Terms(g, s, q, n) == t[a := x][b := y];
  }

  /** Equal totals over the first n entries extend over entries that are the same in both. */
  lemma {:induction false} TotalExtends<P>(g: Group<P>, k: seq<int>, p: seq<P>, s: seq<int>, q: seq<P>, n: nat, m: nat)
    requires n <= m && m <= |k| == |s| && m <= |p| == |q|
    requires forall i :: n <= i < m ==> k[i] == s[i] && p[i] == q[i]
    requires Total(g, k, p, n) == Total(g, s, q, n)
    ensures Total(g, k, p, m) == Total(g, s, q, m)
  {
    hide Total;
    if n < m {
      TotalExtends(g, k, p, s, q, n, m - 1);
      TotalStep(g, k, p, m - 1);
      TotalStep(g, s, q, m - 1);
    }
  }

  lemma TotalStep<P>(g: Group<P>, k: seq<int>, p: seq<P>, m: nat)
    requires m < |k| && m < |p|
    ensures Total(g, k, p, m + 1) == g.add(Total(g, k, p, m), Groups.Mul(g, k[m], p[m]))
  {
    assert Terms(g, k, p, m + 1)[..m] == Terms(g, k, p, m);
  }

  // ---------- the state of the reduction ----------

  ghost predicate TwoNonzero(k: seq<int>, n: nat)
    requires n <= |k|
  {
    exists i, j :: 0 <= i < j < n && k[i] != 0 && k[j] != 0
  }

  /** No key but the one at m is nonzero. */
  ghost predicate OnlyAt(k: seq<int>, n: nat, m: nat)
    requires n <= |k|
  {
    forall i :: 0 <= i < n && i != m ==> k[i] == 0
  }

  /** Every common divisor of the first n keys is below 2^128. */
  ghost predicate SmallDivisors(k: seq<int>, n: nat)
    requires n <= |k|
  {
    forall d :: d > 0 && CommonDivisor(d, k, n) ==> d < TWO128
  }

  /** The condition under which the 128-bit scalars get to join the heap. */
  ghost predicate Extends(k: seq<int>, n: nat)
    requires n <= |k|
  {
    TwoNonzero(k, n) && SmallDivisors(k, n)
  }

  ghost predicate SomeAtLeast(k: seq<int>, n: nat, b: int)
    requires n <= |k|
  {
    exists i :: 0 <= i < n && k[i] >= b
  }

  ghost predicate SameDivisors(k: seq<int>, s: seq<int>, n: nat)
    requires n <= |k| && n <= |s|
  {
    forall d :: d > 0 ==> (CommonDivisor(d, k, n) <==> CommonDivisor(d, s, n))
  }

  /** Keys in the heap fit the limbs looked at; entries outside it are untouched and below 2^128. */
  ghost predicate Bounded<P>(k0: seq<int>, p0: seq<P>, k: seq<int>, p: seq<P>, n: nat, count: nat, limbsize: nat)
    requires |k0| == |k| == |p| == |p0| && n <= count <= |k| && limbsize <= 4
  {
    && (forall i :: 0 <= i < count ==> 0 <= k[i])
    && (forall i :: 0 <= i < n ==> k[i] < LimbBound(limbsize))
    && (forall i :: n <= i < count ==> k[i] == k0[i] < TWO128 && p[i] == p0[i])
  }

  /** Before the heap is extended: still at the start, or any last remaining key would be 2^128 or more. */
  ghost predicate Phase(k0: seq<int>, k: seq<int>, n0: nat, extended: bool)
    requires n0 <= |k| == |k0|
  {
    if extended then Extends(k0, n0)
    else k == k0 || (TwoNonzero(k0, n0) && LastIsLarge(k, n0))
  }

  ghost predicate LastIsLarge(k: seq<int>, n: nat)
    requires n <= |k|
  {
    forall m :: 0 <= m < n && OnlyAt(k, n, m) ==> k[m] >= TWO128
  }

  /** The loop invariant of ge25519_multi_scalarmult_vartime, over keys and points as values. */
  ghost predicate Reducing<P(!new)>(g: Group<P>, k0: seq<int>, p0: seq<P>, k: seq<int>, p: seq<P>,
      n0: nat, count: nat, extended: bool, limbsize: nat)
  {
    var n := if extended then count else n0;
    && |k0| == |k| == |p| == |p0| && 3 <= n0 <= count <= |k| && limbsize <= 4
    && Bounded(k0, p0, k, p, n, count, limbsize)
    && Total(g, k, p, n) == Total(g, k0, p0, n)
    && SameDivisors(k, k0, n)
    && (!extended ==> limbsize >= 2)
    && Phase(k0, k, n0, extended)
  }

  /** Entries a and b are a largest key and a largest of the others, both positive. */
  ghost predicate TopTwo(k: seq<int>, n: nat, a: nat, b: nat)
    requires n <= |k|
  {
    && a < n && b < n && a != b && k[b] > 0
    && (forall i :: 0 <= i < n ==> k[i] <= k[a])
    && (forall i :: 0 <= i < n && i != a ==> k[i] <= k[b])
  }

  lemma Start<P(!new)>(g: Group<P>, k: seq<int>, p: seq<P>, n0: nat, count: nat)
    requires |k| == |p| && 3 <= n0 <= count <= |k|
    requires forall i :: 0 <= i < count ==> 0 <= k[i] < LimbBound(4)
    requires forall i :: n0 <= i < count ==> k[i] < TWO128
    ensures Reducing(g, k, p, k, p, n0, count, false, 4)
  {
  }

  /** "exhausted another limb?": dropping a limb that is zero in the largest key. */
  lemma Shrink<P(!new)>(g: Group<P>, k0: seq<int>, p0: seq<P>, k: seq<int>, p: seq<P>,
      n0: nat, count: nat, extended: bool, limbsize: nat, a: nat, b: nat, s: seq<int>)
    requires Reducing(g, k0, p0, k, p, n0, count, extended, limbsize)
    requires TopTwo(k, if extended then count else n0, a, b)
    requires !extended ==> limbsize == 4 || SomeAtLeast(k, n0, 0x8000_0000_0000_0000_0000_0000_0000_0000)
    requires Limbs(s, 0x100_0000_0000_0000) && Val(s) == k[a] && s[limbsize] == 0
    ensures limbsize > 0
    ensures Reducing(g, k0, p0, k, p, n0, count, extended, limbsize - 1)
  {
    hide Total;
    hide SameDivisors;
    TruncExact(s, limbsize);
    if !extended && limbsize < 4 {
      assert SomeAtLeast(k, n0, 0x8000_0000_0000_0000_0000_0000_0000_0000);
      assert k[a] >= TWO127;
    }
  }

  /** "can we extend to the 128 bit scalars?": the rest of the entries join. */
  lemma Extend<P(!new)>(g: Group<P>, k0: seq<int>, p0: seq<P>, k: seq<int>, p: seq<P>,
      n0: nat, count: nat, limbsize: nat, a: nat, b: nat)
    requires Reducing(g, k0, p0, k, p, n0, count, false, limbsize)
    requires TopTwo(k, n0, a, b) && k[a] < TWO128
    ensures Reducing(g, k0, p0, k, p, n0, count, true, limbsize)
  {
    TotalExtends(g, k, p, k0, p0, n0, count);
    hide Total;
    forall d | d > 0
      ensures CommonDivisor(d, k, count) <==> CommonDivisor(d, k0, count)
    {
      assert CommonDivisor(d, k, count) <==> CommonDivisor(d, k, n0) && forall i :: n0 <= i < count ==> k[i] % d == 0;
      assert CommonDivisor(d, k0, count) <==> CommonDivisor(d, k0, n0) && forall i ::
          n0 <= i < count ==> k0[i] % d == 0;
    }
    forall d | d > 0 && CommonDivisor(d, k0, n0)
      ensures d < TWO128
    {
      assert CommonDivisor(d, k, n0);
      DivisorAtMost(d, k[a]);
    }
    assert if a < b then k[a] != 0 && k[b] != 0 else k[b] != 0 && k[a] != 0;
    assert TwoNonzero(k, n0);
  }

  lemma DivisorAtMost(d: int, x: int)
    requires d > 0 && x > 0 && x % d == 0
    ensures d <= x
  {
    var q := x / d;
    assert x == d * q;
    if q <= 0 {
      MulMono(d, q, 0);
    } else {
      MulMono(d, 1, q);
    }
  }

  /**
   One subtraction and one point addition. While the heap is not extended the largest key is 2^128
   or more, so some key stays at 2^127 or more: no later test can skip the 128-bit range.
   */
  lemma Step<P(!new)>(g: Group<P>, k0: seq<int>, p0: seq<P>, k: seq<int>, p: seq<P>,
      n0: nat, count: nat, extended: bool, limbsize: nat, a: nat, b: nat)
    requires IsAbelian(g)
    requires Reducing(g, k0, p0, k, p, n0, count, extended, limbsize)
    requires TopTwo(k, if extended then count else n0, a, b)
    requires !extended ==> k[a] >= TWO128
    ensures Reducing(g, k0, p0, k[a := k[a] - k[b]], p[b := g.add(p[b], p[a])], n0, count, extended, limbsize)
    ensures !extended ==> SomeAtLeast(k[a := k[a] - k[b]], n0, 0x8000_0000_0000_0000_0000_0000_0000_0000)
  {
    hide IsAbelian;
    hide Total;
    hide Phase;
    hide SameDivisors;
    var n := if extended then count else n0;
    StepBounded(k0, p0, k, p, n, count, limbsize, a, b, g.add(p[b], p[a]));
    assert k[b] >= 0;
    hide Bounded;
    StepTotal(g, k, p, n, a, b);
    StepSameDivisors(k0, k, n, a, b);
    StepPhase(k0, k, n0, extended, a, b);
  }

  lemma StepBounded<P>(k0: seq<int>, p0: seq<P>, k: seq<int>, p: seq<P>, n: nat, count: nat, limbsize: nat,
      a: nat, b: nat, x: P)
    requires |k0| == |k| == |p| == |p0| && n <= count <= |k| && limbsize <= 4
    requires Bounded(k0, p0, k, p, n, count, limbsize) && TopTwo(k, n, a, b)
    ensures Bounded(k0, p0, k[a := k[a] - k[b]], p[b := x], n, count, limbsize)
  {
  }

  lemma StepSameDivisors(k0: seq<int>, k: seq<int>, n: nat, a: nat, b: nat)
    requires n <= |k| && n <= |k0| && a < n && b < n && a != b && SameDivisors(k, k0, n)
    ensures SameDivisors(k[a := k[a] - k[b]], k0, n)
  {
    hide CommonDivisor;
    forall d | d > 0
      ensures CommonDivisor(d, k[a := k[a] - k[b]], n) <==> CommonDivisor(d, k0, n)
    {
      StepDivisors(k, n, a, b, d);
    }
  }

  lemma StepPhase(k0: seq<int>, k: seq<int>, n: nat, extended: bool, a: nat, b: nat)
    requires n <= |k| == |k0| && Phase(k0, k, n, extended)
    requires a < |k| && b < |k| && (!extended ==> TopTwo(k, n, a, b) && k[a] >= TWO128)
    ensures Phase(k0, k[a := k[a] - k[b]], n, extended)
    ensures !extended ==> SomeAtLeast(k[a := k[a] - k[b]], n, 0x8000_0000_0000_0000_0000_0000_0000_0000)
  {
    if !extended {
      var s := k[a := k[a] - k[b]];
      assert s[b] == k[b] && s[a] == k[a] - k[b];
      assert s[if k[b] >= TWO127 then b else a] >= TWO127;
      assert if a < b then k[a] != 0 && k[b] != 0 else k[b] != 0 && k[a] != 0;
      assert TwoNonzero(k, n);
    }
  }

  lemma StepMeasure(k: seq<int>, n: nat, a: nat, b: nat)
    requires n <= |k| && TopTwo(k, n, a, b) && forall i :: 0 <= i < n ==> k[i] >= 0
    ensures 0 <= KeySum(k[a := k[a] - k[b]], n) < KeySum(k, n)
  {
    KeySumUpdate(k, n, a, k[a] - k[b]);
    KeySumNat(k[a := k[a] - k[b]], n);
  }

  /** When only one key is left it is the gcd, and its multiple of its point is the whole sum. */
  lemma Finish<P(!new)>(g: Group<P>, k0: seq<int>, p0: seq<P>, k: seq<int>, p: seq<P>,
      n0: nat, count: nat, extended: bool, limbsize: nat, a: nat)
    requires IsAbelian(g)
    requires Reducing(g, k0, p0, k, p, n0, count, extended, limbsize)
    requires a < n0 || (extended && a < count)
    requires OnlyAt(k, if extended then count else n0, a)
    ensures extended <==> Extends(k0, n0)
    ensures IsGcd(k[a], k0, if extended then count else n0)
    ensures Total(g, k0, p0, if extended then count else n0) == Mul(g, k[a], p[a])
  {
    var n := if extended then count else n0;
    OneKeyTotal(g, k, p, n, a);
    hide IsAbelian;
    hide Total;
    OneKeyGcd(k0, k, n, a);
    hide IsGcd;
    hide Bounded;
    if !extended {
      hide SameDivisors;
      if k != k0 {
        OneKeyDivides(k0, k, n0, a);
      } else {
        OneIsNotTwo(k, n0, a);
      }
    }
  }

  lemma OneIsNotTwo(k: seq<int>, n: nat, a: nat)
    requires n <= |k| && a < n && OnlyAt(k, n, a)
    ensures !TwoNonzero(k, n)
  {
  }

  lemma OneKeyDivides(k0: seq<int>, k: seq<int>, n: nat, a: nat)
    requires n <= |k| == |k0| && a < n && OnlyAt(k, n, a) && SameDivisors(k, k0, n) && LastIsLarge(k, n)
    ensures !SmallDivisors(k0, n)
  {
    assert k[a] >= TWO128;
    ModSelf(k[a]);
    forall i | 0 <= i < n
      ensures k[i] % k[a] == 0
    {
      if i != a {
        DivModUnique(0, k[a], 0, 0);
      }
    }
    assert CommonDivisor(k[a], k, n);
    assert CommonDivisor(k[a], k0, n);
  }

  lemma OneKeyTotal<P(!new)>(g: Group<P>, k: seq<int>, p: seq<P>, n: nat, a: nat)
    requires IsAbelian(g) && n <= |k| && n <= |p| && a < n && OnlyAt(k, n, a)
    ensures Total(g, k, p, n) == Mul(g, k[a], p[a])
  {
    hide IsAbelian;
    hide Sum;
    SumSingle(g, Terms(g, k, p, n), a);
  }

  lemma OneKeyGcd(k0: seq<int>, k: seq<int>, n: nat, a: nat)
    requires n <= |k| && n <= |k0| && a < n && OnlyAt(k, n, a) && SameDivisors(k, k0, n)
    ensures IsGcd(k[a], k0, n)
  {
    forall d | d > 0
      ensures CommonDivisor(d, k0, n) <==> k[a] % d == 0
    {
      DivModUnique(0, d, 0, 0);
      assert CommonDivisor(d, k, n) <==> k[a] % d == 0;
    }
  }

  lemma ModSelf(x: int)
    requires x > 0
    ensures x % x == 0
  {
    DivModUnique(x, x, 1, 0);
  }
}
