/**
 Abelian groups given by their operations, integer multiples, and finite sums.
 The laws are a hypothesis (`IsAbelian`) of every lemma that needs them.
 */
module Groups {
  datatype Group<!T> = Group(zero: T, add: (T, T) -> T, neg: T -> T)

  /** The laws at three elements: a name of its own, so that nothing unfolds them but a proof that asks. */
  ghost predicate LawsAt<T>(g: Group<T>, a: T, b: T, c: T) {
    && g.add(g.add(a, b), c) == g.add(a, g.add(b, c))
    && g.add(a, b) == g.add(b, a)
    && g.add(a, g.zero) == a
    && g.add(a, g.neg(a)) == g.zero
  }

  ghost predicate IsAbelian<T(!new)>(g: Group<T>) {
    forall a: T, b: T, c: T :: LawsAt(g, a, b, c)
  }

  lemma Assoc<T(!new)>(g: Group<T>, a: T, b: T, c: T)
    requires IsAbelian(g)
    ensures g.add(g.add(a, b), c) == g.add(a, g.add(b, c))
  {
    assert LawsAt(g, a, b, c);
  }

  lemma Commute<T(!new)>(g: Group<T>, a: T, b: T)
    requires IsAbelian(g)
    ensures g.add(a, b) == g.add(b, a)
  {
    assert LawsAt(g, a, b, a);
  }

  lemma Identity<T(!new)>(g: Group<T>, a: T)
    requires IsAbelian(g)
    ensures g.add(a, g.zero) == a == g.add(g.zero, a)
  {
    assert LawsAt(g, a, g.zero, a);
  }

  lemma Inverse<T(!new)>(g: Group<T>, a: T)
    requires IsAbelian(g)
    ensures g.add(a, g.neg(a)) == g.zero == g.add(g.neg(a), a)
  {
    assert LawsAt(g, a, g.neg(a), a);
  }

  /** (a + b) + (c + d) == (a + c) + (b + d). */
  lemma Swap4<T(!new)>(g: Group<T>, a: T, b: T, c: T, d: T)
    requires IsAbelian(g)
    ensures g.add(g.add(a, b), g.add(c, d)) == g.add(g.add(a, c), g.add(b, d))
  {
    hide IsAbelian;
    calc {
      g.add(g.add(a, b), g.add(c, d));
      { Assoc(g, a, b, g.add(c, d)); }
      g.add(a, g.add(b, g.add(c, d)));
      { Assoc(g, b, c, d); Commute(g, b, c); }
      g.add(a, g.add(g.add(c, b), d));
      { Assoc(g, c, b, d); }
      g.add(a, g.add(c, g.add(b, d)));
      { Assoc(g, a, c, g.add(b, d)); }
      g.add(g.add(a, c), g.add(b, d));
    }
  }

  lemma Cancel<T(!new)>(g: Group<T>, a: T, b: T, c: T)
    requires IsAbelian(g) && g.add(a, c) == g.add(b, c)
    ensures a == b
  {
    hide IsAbelian;
    Assoc(g, a, c, g.neg(c));
    Assoc(g, b, c, g.neg(c));
    Inverse(g, c);
    Identity(g, a);
    Identity(g, b);
  }

  lemma NegUnique<T(!new)>(g: Group<T>, a: T, b: T)
    requires IsAbelian(g) && g.add(a, b) == g.zero
    ensures b == g.neg(a)
  {
    hide IsAbelian;
    Commute(g, a, b);
    Inverse(g, a);
    Cancel(g, b, g.neg(a), a);
  }

  lemma NegAdd<T(!new)>(g: Group<T>, a: T, b: T)
    requires IsAbelian(g)
    ensures g.neg(g.add(a, b)) == g.add(g.neg(a), g.neg(b))
  {
    hide IsAbelian;
    Swap4(g, a, b, g.neg(a), g.neg(b));
    Inverse(g, a);
    Inverse(g, b);
    Identity(g, g.zero);
    NegUnique(g, g.add(a, b), g.add(g.neg(a), g.neg(b)));
  }

  lemma NegNeg<T(!new)>(g: Group<T>, a: T)
    requires IsAbelian(g)
    ensures g.neg(g.neg(a)) == a
  {
    hide IsAbelian;
    Inverse(g, a);
    NegUnique(g, g.neg(a), a);
  }

  // ---------- multiples ----------

  /** [n]p for any integer n. */
  function Mul<T>(g: Group<T>, n: int, p: T): T
    decreases if n < 0 then 1 - n else n, p
  {
    if n == 0 then g.zero
    else if n > 0 then g.add(Mul(g, n - 1, p), p)
    else g.neg(Mul(g, -n, p))
  }

  lemma MulStep<T(!new)>(g: Group<T>, n: int, p: T)
    requires IsAbelian(g)
    ensures Mul(g, n + 1, p) == g.add(Mul(g, n, p), p)
  {
    hide IsAbelian;
    if n == -1 {
      Identity(g, p);
      assert Mul(g, 1, p) == g.add(Mul(g, 0, p), p);
      Inverse(g, p);
    } else if n < -1 {
      var k := -n - 1;
      assert Mul(g, -n, p) == g.add(Mul(g, k, p), p);
      NegAdd(g, Mul(g, k, p), p);
      Assoc(g, g.neg(Mul(g, k, p)), g.neg(p), p);
      Inverse(g, p);
      Identity(g, g.neg(Mul(g, k, p)));
    }
  }

  lemma MulOne<T(!new)>(g: Group<T>, p: T)
    requires IsAbelian(g)
    ensures Mul(g, 1, p) == p
  {
    assert Mul(g, 1, p) == g.add(Mul(g, 0, p), p);
    Identity(g, p);
  }

  lemma {:induction false} MulAdd<T(!new)>(g: Group<T>, n: int, m: int, p: T)
    requires IsAbelian(g)
    ensures Mul(g, n + m, p) == g.add(Mul(g, n, p), Mul(g, m, p))
    decreases if m < 0 then -m else m
  {
    hide IsAbelian;
    if m == 0 {
      Identity(g, Mul(g, n, p));
    } else if m > 0 {
      MulAdd(g, n, m - 1, p);
      MulStep(g, n + m - 1, p);
      Assoc(g, Mul(g, n, p), Mul(g, m - 1, p), p);
    } else {
      MulAdd(g, n, m + 1, p);
      MulStep(g, n + m, p);
      MulStep(g, m, p);
      Assoc(g, Mul(g, n, p), Mul(g, m, p), p);
      Cancel(g, Mul(g, n + m, p), g.add(Mul(g, n, p), Mul(g, m, p)), p);
    }
  }

  lemma MulNeg<T(!new)>(g: Group<T>, n: int, p: T)
    requires IsAbelian(g)
    ensures Mul(g, -n, p) == g.neg(Mul(g, n, p))
  {
    hide IsAbelian;
    MulAdd(g, n, -n, p);
    NegUnique(g, Mul(g, n, p), Mul(g, -n, p));
  }

  lemma {:induction false} MulPlus<T(!new)>(g: Group<T>, n: nat, p: T, q: T)
    requires IsAbelian(g)
    ensures Mul(g, n, g.add(p, q)) == g.add(Mul(g, n, p), Mul(g, n, q))
  {
    hide IsAbelian;
    if n == 0 {
      Identity(g, g.zero);
    } else {
      MulPlus(g, n - 1, p, q);
      Swap4(g, Mul(g, n - 1, p), Mul(g, n - 1, q), p, q);
    }
  }

  lemma {:induction false} MulMul<T(!new)>(g: Group<T>, n: nat, m: int, p: T)
    requires IsAbelian(g)
    ensures Mul(g, n, Mul(g, m, p)) == Mul(g, n * m, p)
  {
    hide IsAbelian;
    if n == 0 {
    } else {
      MulMul(g, n - 1, m, p);
      MulAdd(g, (n - 1) * m, m, p);
      assert (n - 1) * m + m == n * m;
    }
  }

  lemma {:induction false} MulOfZero<T(!new)>(g: Group<T>, n: nat)
    requires IsAbelian(g)
    ensures Mul(g, n, g.zero) == g.zero
  {
    hide IsAbelian;
    if n > 0 {
      MulOfZero(g, n - 1);
      Identity(g, g.zero);
    }
  }

  /** n is the order of p. */
  ghost predicate HasOrder<T>(g: Group<T>, p: T, n: nat) {
    n > 0 && Mul(g, n, p) == g.zero && forall m: nat :: 0 < m < n ==> Mul(g, m, p) != g.zero
  }

  // ---------- sums ----------

  function Sum<T>(g: Group<T>, t: seq<T>): T {
    if |t| == 0 then g.zero else g.add(Sum(g, t[..|t| - 1]), t[|t| - 1])
  }

  lemma {:induction false} SumAppend<T(!new)>(g: Group<T>, s: seq<T>, t: seq<T>)
    requires IsAbelian(g)
    ensures Sum(g, s + t) == g.add(Sum(g, s), Sum(g, t))
    decreases |t|
  {
    hide IsAbelian;
    if |t| == 0 {
      assert s + t == s;
      Identity(g, Sum(g, s));
    } else {
      var u := t[..|t| - 1];
      SumAppend(g, s, u);
      assert (s + t)[..|s + t| - 1] == s + u;
      Assoc(g, Sum(g, s), Sum(g, u), t[|t| - 1]);
    }
  }

  /** One term taken out of a sum. */
  lemma {:induction false} SumPull<T(!new)>(g: Group<T>, t: seq<T>, i: nat)
    requires IsAbelian(g) && i < |t|
    ensures Sum(g, t) == g.add(Sum(g, t[i := g.zero]), t[i])
  {
    hide IsAbelian;
    var n := |t| - 1;
    var z := t[i := g.zero];
    if i == n {
      assert z[..n] == t[..n];
      Identity(g, Sum(g, t[..n]));
    } else {
      SumPull(g, t[..n], i);
      assert z[..n] == t[..n][i := g.zero];
      var s := Sum(g, z[..n]);
      Assoc(g, s, t[i], t[n]);
      Commute(g, t[i], t[n]);
      Assoc(g, s, t[n], t[i]);
    }
  }

  /** Changing two terms without changing their sum leaves the total unchanged. */
  lemma SumExchange<T(!new)>(g: Group<T>, t: seq<T>, i: nat, j: nat, x: T, y: T)
    requires IsAbelian(g) && i < |t| && j < |t| && i != j
    requires g.add(x, y) == g.add(t[i], t[j])
    ensures Sum(g, t[i := x][j := y]) == Sum(g, t)
  {
    hide IsAbelian;
    var u := t[i := x][j := y];
    var z := t[i := g.zero][j := g.zero];
    SumPull(g, t, i);
    SumPull(g, t[i := g.zero], j);
    SumPull(g, u, i);
    SumPull(g, u[i := g.zero], j);
    assert u[i := g.zero][j := g.zero] == z;
    var s := Sum(g, z);
    Assoc(g, s, t[j], t[i]);
    Assoc(g, s, y, x);
    Commute(g, t[j], t[i]);
    Commute(g, y, x);
  }

  lemma {:induction false} SumOfZeros<T(!new)>(g: Group<T>, t: seq<T>)
    requires IsAbelian(g) && forall i :: 0 <= i < |t| ==> t[i] == g.zero
    ensures Sum(g, t) == g.zero
  {
    hide IsAbelian;
    if |t| > 0 {
      SumOfZeros(g, t[..|t| - 1]);
      Identity(g, g.zero);
    }
  }

  /** A sum with a single term that is not the identity is that term. */
  lemma SumSingle<T(!new)>(g: Group<T>, t: seq<T>, i: nat)
    requires IsAbelian(g) && i < |t| && forall k :: 0 <= k < |t| && k != i ==> t[k] == g.zero
    ensures Sum(g, t) == t[i]
  {
    hide IsAbelian;
    SumPull(g, t, i);
    SumOfZeros(g, t[i := g.zero]);
    Identity(g, t[i]);
  }
}
