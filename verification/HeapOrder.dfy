/**
 The order of an index heap: `h` lists entry numbers, `k` gives each entry its key, and only the
 first `n` places of `h` are in use.
 */
module HeapOrder {
  function Par(i: nat): nat
    requires i > 0
    ensures Par(i) < i
  {
    (i - 1) / 2
  }

  /** The places in use hold the entries 0..n-1, each once. */
  ghost predicate IsPerm(h: seq<nat>, n: nat) {
    && n <= |h|
    && (forall i :: 0 <= i < n ==> h[i] < n)
    && (forall i, j :: 0 <= i < j < n ==> h[i] != h[j])
  }

  ghost predicate Indexed(h: seq<nat>, k: seq<int>, n: nat) {
    n <= |h| && n <= |k| && forall i :: 0 <= i < n ==> h[i] < |k|
  }

  /** No entry has a larger key than its parent. */
  ghost predicate IsHeap(h: seq<nat>, k: seq<int>, n: nat)
    requires Indexed(h, k, n)
  {
    forall i :: 0 < i < n ==> k[h[Par(i)]] >= k[h[i]]
  }

  /** Heap order except that place `node` may exceed its parent. */
  ghost predicate HeapButUp(h: seq<nat>, k: seq<int>, n: nat, node: nat)
    requires Indexed(h, k, n)
  {
    && node < n
    && (forall i :: 0 < i < n && i != node ==> k[h[Par(i)]] >= k[h[i]])
    && (forall i :: 0 < i < n && 0 < node && Par(i) == node ==> k[h[Par(node)]] >= k[h[i]])
  }

  /** Heap order except around `hole`, whose children are still below its parent. */
  ghost predicate HeapButHole(h: seq<nat>, k: seq<int>, n: nat, hole: nat)
    requires Indexed(h, k, n)
  {
    && hole < n
    && (forall i :: 0 < i < n && i != hole && Par(i) != hole ==> k[h[Par(i)]] >= k[h[i]])
    && (forall i :: 0 < i < n && 0 < hole && Par(i) == hole ==> k[h[Par(hole)]] >= k[h[i]])
  }

  function Swapped<T>(h: seq<T>, a: nat, b: nat): (s: seq<T>)
    requires a < |h| && b < |h|
    ensures |s| == |h|
  {
    h[a := h[b]][b := h[a]]
  }

  lemma SwapPerm(h: seq<nat>, n: nat, a: nat, b: nat)
    requires IsPerm(h, n) && a < n && b < n
    ensures IsPerm(Swapped(h, a, b), n)
  {
  }

  /** Moving a key up past a parent that does not exceed it. */
  lemma SiftUpStep(h: seq<nat>, k: seq<int>, n: nat, node: nat)
    requires Indexed(h, k, n) && 0 < node && HeapButUp(h, k, n, node)
    requires k[h[Par(node)]] <= k[h[node]]
    ensures Indexed(Swapped(h, Par(node), node), k, n)
    ensures HeapButUp(Swapped(h, Par(node), node), k, n, Par(node))
  {
    var s, p := Swapped(h, Par(node), node), Par(node);
    forall i | 0 < i < n && i != p
      ensures k[s[Par(i)]] >= k[s[i]]
    {
      if i == node {
        assert s[i] == h[p] && s[Par(i)] == h[node];
      } else if Par(i) == node {
        assert s[i] == h[i] && s[Par(i)] == h[p];
      } else if Par(i) == p {
        assert s[i] == h[i] && s[Par(i)] == h[node];
      } else {
        assert s[i] == h[i] && s[Par(i)] == h[Par(i)];
      }
    }
    forall i | 0 < i < n && 0 < p && Par(i) == p
      ensures k[s[Par(p)]] >= k[s[i]]
    {
      assert k[h[Par(p)]] >= k[h[p]];
    }
  }

  /** Moving the larger child up into the hole. */
  lemma SiftDownStep(h: seq<nat>, k: seq<int>, n: nat, hole: nat, c: nat)
    requires Indexed(h, k, n) && HeapButHole(h, k, n, hole)
    requires 2 * hole + 2 < n && (c == 2 * hole + 1 || c == 2 * hole + 2)
    requires k[h[c]] >= k[h[2 * hole + 1]] && k[h[c]] >= k[h[2 * hole + 2]]
    ensures Indexed(Swapped(h, hole, c), k, n)
    ensures HeapButHole(Swapped(h, hole, c), k, n, c)
  {
    var s := Swapped(h, hole, c);
    forall i | 0 < i < n && i != c && Par(i) != c
      ensures k[s[Par(i)]] >= k[s[i]]
    {
      if Par(i) == hole {
        assert i == 2 * hole + 1 || i == 2 * hole + 2;
      } else if i == hole {
        assert Par(c) == hole;
      } else {
        assert s[i] == h[i] && s[Par(i)] == h[Par(i)];
      }
    }
    forall i | 0 < i < n && Par(i) == c
      ensures k[s[Par(c)]] >= k[s[i]]
    {
      assert Par(c) == hole;
    }
  }

  /** On an odd-sized heap a place without a right child is a leaf. */
  lemma BottomIsLeaf(h: seq<nat>, k: seq<int>, n: nat, hole: nat)
    requires Indexed(h, k, n) && HeapButHole(h, k, n, hole)
    requires n % 2 == 1 && 2 * hole + 2 >= n
    ensures HeapButUp(h, k, n, hole)
  {
    assert forall i :: 0 < i < n ==> Par(i) != hole;
  }

  lemma {:induction false} RootIsLargest(h: seq<nat>, k: seq<int>, n: nat, i: nat)
    requires Indexed(h, k, n) && IsHeap(h, k, n) && i < n
    ensures k[h[i]] <= k[h[0]]
    ensures 0 < i && n > 2 ==> k[h[i]] <= k[h[1]] || k[h[i]] <= k[h[2]]
  {
    if i > 2 {
      RootIsLargest(h, k, n, Par(i));
    } else if i > 0 {
      assert Par(i) == 0;
    }
  }

  // ---------- the places in use reach every entry ----------

  ghost function Below(n: nat): (s: set<nat>)
    ensures |s| == n && forall i: nat :: i in s <==> i < n
  {
    if n == 0 then {} else Below(n - 1) + {n - 1}
  }

  ghost function Held(h: seq<nat>, n: nat): (s: set<nat>)
    requires n <= |h|
    ensures forall x: nat :: x in s <==> exists i :: 0 <= i < n && h[i] == x
  {
    if n == 0 then {} else Held(h, n - 1) + {h[n - 1]}
  }

  lemma {:induction false} HeldSize(h: seq<nat>, n: nat)
    requires n <= |h| && forall i, j :: 0 <= i < j < n ==> h[i] != h[j]
    ensures |Held(h, n)| == n
  {
    hide Held;
    if n == 0 {
      HeldNone(h);
    } else {
      HeldSize(h, n - 1);
      HeldStep(h, n);
    }
  }

  lemma HeldNone(h: seq<nat>)
    ensures |Held(h, 0)| == 0
  {
  }

  lemma HeldStep(h: seq<nat>, n: nat)
    requires 0 < n <= |h| && forall i :: 0 <= i < n - 1 ==> h[i] != h[n - 1]
    ensures |Held(h, n)| == |Held(h, n - 1)| + 1
  {
    assert Held(h, n) == Held(h, n - 1) + {h[n - 1]};
    assert h[n - 1] !in Held(h, n - 1);
  }

  lemma SubsetOfSameSize(a: set<nat>, b: set<nat>)
    requires a <= b && |a| == |b|
    ensures a == b
  {
    if a != b {
      var x :| x in b && x !in a;
      assert a <= b - {x};
      SubsetSize(a, b - {x});
    }
  }

  lemma {:induction false} SubsetSize(a: set<nat>, b: set<nat>)
    requires a <= b
    ensures |a| <= |b|
  {
    if a != {} {
      var x :| x in a;
      SubsetSize(a - {x}, b - {x});
    }
  }

  lemma PermReaches(h: seq<nat>, n: nat, x: nat) returns (i: nat)
    requires IsPerm(h, n) && x < n
    ensures i < n && h[i] == x
  {
    HeldSize(h, n);
    var held, below := Held(h, n), Below(n);
    hide Held;
    hide Below;
    assert held <= below;
    SubsetOfSameSize(held, below);
    assert x in held;
    i :| i < n && h[i] == x;
  }
}
