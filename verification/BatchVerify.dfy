/**
 Batch verification's multi-scalar multiplication: an index max-heap over the scalars and the
 subtractive reduction of Bos and Carter, over an arbitrary abelian group of points.
 */
module BatchVerify {
  import opened Numbers
  import opened Scalars
  import opened ModmBatch
  import opened HeapOrder
  import opened Groups
  import opened BosCarter
  import opened FinalMultiple

  /**
   batch_heap. `keys` is the number each scalar's limbs hold; the first `size` places of `heap`
   list the entries that take part.
   */
  class BatchHeap<P(!new)> {
    const heap: array<nat>
    const scalars: seq<array<u64>>
    const points: array<P>
    var size: nat
    ghost var keys: seq<int>

    constructor (scalars: seq<array<u64>>, points: array<P>)
      requires points.Length == |scalars|
      requires forall i :: 0 <= i < |scalars| ==> scalars[i].Length == 5 && Limbs(scalars[i][..], 0x100_0000_0000_0000)
      requires forall i, j :: 0 <= i < j < |scalars| ==> scalars[i] != scalars[j]
      requires forall i :: 0 <= i < |scalars| ==> points as object != scalars[i]
      ensures Valid() && fresh(heap) && this.scalars == scalars && this.points == points
      ensures size == 0
    {
      heap := new nat[|scalars|];
      this.scalars := scalars;
      this.points := points;
      size := 0;
      keys := seq(|scalars|, i requires 0 <= i < |scalars|
          && scalars[i].Length == 5 reads scalars => Val(scalars[i][..]));
    }

    ghost predicate Shape()
      reads this
    {
      && heap.Length == |scalars| == points.Length == |keys| && size <= heap.Length
      && (forall i :: 0 <= i < |scalars| ==> scalars[i].Length == 5)
      && (forall i, j :: 0 <= i < j < |scalars| ==> scalars[i] != scalars[j])
      && (forall i :: 0 <= i < |scalars| ==> points as object != scalars[i] && heap as object != scalars[i])
      && points as object != heap
    }

    ghost predicate Valid()
      reads this, heap, points, scalars
    {
      && Shape()
      && forall i :: 0 <= i < |scalars| ==>
          Limbs(scalars[i][..], 0x100_0000_0000_0000) && keys[i] == Val(scalars[i][..])
    }

    /** The heap's first `size` places hold 0..size-1 in max-heap order of the keys. */
    ghost predicate Ordered()
      reads this, heap
      requires heap.Length == |keys| && size <= heap.Length
    {
      IsPerm(heap[..], size) && IsHeap(heap[..], keys, size)
    }

    /** Every key in the heap fits in limbs 0..limbsize. */
    ghost predicate Fits(limbsize: nat)
      reads this
      requires size <= |keys| && limbsize <= 4
    {
      forall i :: 0 <= i < size ==> 0 <= keys[i] < LimbBound(limbsize)
    }

    /** Comparing two entries by limbs 0..limbsize compares their keys. */
    method Less(a: nat, b: nat, limbsize: nat) returns (r: bool)
      requires Valid() && a < size && b < size && limbsize <= 4 && Fits(limbsize)
      ensures r == (keys[a] < keys[b])
    {
      r := LessThan(scalars[a], scalars[b], limbsize);
      TruncExact(scalars[a][..], limbsize);
      TruncExact(scalars[b][..], limbsize);
    }

    method LessEq(a: nat, b: nat, limbsize: nat) returns (r: bool)
      requires Valid() && a < size && b < size && limbsize <= 4 && Fits(limbsize)
      ensures r == (keys[a] <= keys[b])
    {
      r := AtMost(scalars[a], scalars[b], limbsize);
      TruncExact(scalars[a][..], limbsize);
      TruncExact(scalars[b][..], limbsize);
    }

    /** heap_swap. */
    method Swap(a: nat, b: nat)
      requires a < heap.Length && b < heap.Length
      modifies heap
      ensures heap[..] == Swapped(old(heap[..]), a, b)
    {
      var temp := heap[a];
      heap[a] := heap[b];
      heap[b] := temp;
    }
  
    /** One step of a sift up. */
    method SwapUp(node: nat)
      requires Valid() && IsPerm(heap[..], size) && 0 < node < size && HeapButUp(heap[..], keys, size, node)
      requires keys[heap[Par(node)]] <= keys[heap[node]]
      modifies heap
      ensures Valid() && IsPerm(heap[..], size) && HeapButUp(heap[..], keys, size, Par(node))
    {
      hide HeapButUp;
      SwapPerm(heap[..], size, Par(node), node);
      SiftUpStep(heap[..], keys, size, node);
      Swap(Par(node), node);
    }

    /** One step of the sift down: the larger child moves into the hole. */
    method SwapDown(hole: nat, c: nat)
      requires Valid() && IsPerm(heap[..], size) && HeapButHole(heap[..], keys, size, hole)
      requires 2 * hole + 2 < size && (c == 2 * hole + 1 || c == 2 * hole + 2)
      requires keys[heap[c]] >= keys[heap[2 * hole + 1]] && keys[heap[c]] >= keys[heap[2 * hole + 2]]
      modifies heap
      ensures Valid() && IsPerm(heap[..], size) && HeapButHole(heap[..], keys, size, c)
    {
      hide HeapButHole;
      SwapPerm(heap[..], size, hole, c);
      SiftDownStep(heap[..], keys, size, hole, c);
      Swap(hole, c);
    }

    lemma UpDone(node: nat)
      requires Shape() && IsPerm(heap[..], size) && HeapButUp(heap[..], keys, size, node)
      requires node == 0 || keys[heap[Par(node)]] >= keys[heap[node]]
      ensures Ordered()
    {
    }

    /** heap_insert_next: entry number `size` joins the heap. */
    method InsertNext()
      requires Valid() && Ordered() && size < heap.Length
      modifies heap, this`size
      ensures Valid() && Ordered()
      ensures size == old(size) + 1
    {
      hide HeapButUp;
      hide IsHeap;
      ghost var n := size + 1;
      var node: nat := size;
      heap[node] := node;
      assert heap[..size] == old(heap[..size]);
      size := size + 1;
      AllFit();
      AddedLeaf(old(heap[..]), heap[..], keys, n);
      while node > 0
        invariant node < n && size == n
        invariant Valid() && Fits(4)
        invariant IsPerm(heap[..], n) && HeapButUp(heap[..], keys, n, node)
      {
        var parent := Par(node);
        var less := Less(heap[parent], heap[node], 4);
        if !less {
          break;
        }
        SwapUp(node);
        node := parent;
      }
      UpDone(node);
    }

    lemma AllFit()
      requires Valid()
      ensures Fits(4)
    {
      forall i | 0 <= i < size
        ensures 0 <= keys[i] < LimbBound(4)
      {
        TruncExact(scalars[i][..], 4);
      }
    }

    /** The first loop of heap_updated_root: the root's place sinks along the larger children. */
    method SinkRoot(limbsize: nat) returns (node: nat)
      requires Valid() && IsPerm(heap[..], size) && HeapButHole(heap[..], keys, size, 0)
      requires size >= 3 && size % 2 == 1 && limbsize <= 4 && Fits(limbsize)
      modifies heap
      ensures Valid() && IsPerm(heap[..], size) && node < size && HeapButUp(heap[..], keys, size, node)
    {
      hide HeapButUp;
      hide HeapButHole;
      var parent: nat, childl: nat, childr: nat := 0, 1, 2;
      node := 1;
      while childr < size
        invariant parent < size && childl == 2 * parent + 1 && childr == childl + 1
        invariant Valid()
        invariant IsPerm(heap[..], size) && HeapButHole(heap[..], keys, size, parent)
        invariant childr >= size ==> node == parent
        decreases size - parent
      {
        var less := Less(heap[childl], heap[childr], limbsize);
        node := if less then childr else childl;
        SwapDown(parent, node);
        parent := node;
        childl := parent * 2 + 1;
        childr := childl + 1;
      }
      BottomIsLeaf(heap[..], keys, size, node);
    }

    /** heap_updated_root: order restored after the root's key has changed, on an odd-sized heap. */
    method UpdatedRoot(limbsize: nat)
      requires Valid() && IsPerm(heap[..], size) && HeapButHole(heap[..], keys, size, 0)
      requires size >= 3 && size % 2 == 1 && limbsize <= 4 && Fits(limbsize)
      modifies heap
      ensures Valid() && Ordered()
    {
      hide HeapButUp;
      hide HeapButHole;
      hide IsHeap;
      var node: nat := SinkRoot(limbsize);
      while node > 0
        invariant node < size
        invariant Valid()
        invariant IsPerm(heap[..], size) && HeapButUp(heap[..], keys, size, node)
      {
        var parent := Par(node);
        var atMost := LessEq(heap[parent], heap[node], limbsize);
        if !atMost {
          break;
        }
        SwapUp(node);
        node := parent;
      }
      UpDone(node);
    }

    /** heap_build: the first `count` entries in heap order. */
    method Build(count: nat)
      requires Valid() && 0 < count <= heap.Length
      modifies heap, this`size
      ensures Valid() && Ordered() && size == count
    {
      heap[0] := 0;
      size := 0;
      while size < count
        invariant Valid() && Ordered() && size <= count
      {
        InsertNext();
      }
    }

    /** heap_extend. */
    method Extend(newCount: nat)
      requires Valid() && Ordered() && newCount <= heap.Length
      modifies heap, this`size
      ensures Valid() && Ordered()
      ensures size == if old(size) < newCount then newCount else old(size)
    {
      while size < newCount
        invariant Valid() && Ordered()
        invariant old(size) <= size && (size <= newCount || size == old(size))
      {
        InsertNext();
      }
    }

    /** heap_get_top2: an entry with the largest key and one with the largest among the others. */
    method GetTop2(limbsize: nat) returns (max1: nat, max2: nat)
      requires Valid() && Ordered() && size >= 3 && limbsize <= 4 && Fits(limbsize)
      ensures max1 < size && max2 < size && max1 != max2 && heap[0] == max1
      ensures forall i :: 0 <= i < size ==> keys[i] <= keys[max1]
      ensures forall i :: 0 <= i < size && i != max1 ==> keys[i] <= keys[max2]
    {
      var h0, h1, h2 := heap[0], heap[1], heap[2];
      var less := Less(h1, h2, limbsize);
      if less {
        h1 := h2;
      }
      max1, max2 := h0, h1;
      forall x: nat | x < size
        ensures keys[x] <= keys[max1]
        ensures x != max1 ==> keys[x] <= keys[max2]
      {
        var i := PermReaches(heap[..], size, x);
        RootIsLargest(heap[..], keys, size, i);
      }
    }

    /** `scalars[max1] -= scalars[max2]; points[max2] += points[max1]` and the heap repaired. */
    method Subtract(g: Group<P>, max1: nat, max2: nat, limbsize: nat)
      requires Valid() && Ordered() && size >= 3 && size % 2 == 1 && limbsize <= 4 && Fits(limbsize)
      requires max1 < size && max2 < size && max1 != max2 && heap[0] == max1 && keys[max2] <= keys[max1]
      modifies this`keys, heap, points, scalars[max1]
      ensures Valid() && Ordered()
      ensures keys == old(keys[max1 := keys[max1] - keys[max2]])
      ensures points[..] == old(points[..][max2 := g.add(points[max2], points[max1])])
    {
      hide IsPerm;
      hide IsHeap;
      hide HeapButHole;
      SubtractEntries(g, max1, max2, limbsize);
      UpdatedRoot(limbsize);
    }

    /** The two entries changed; the heap is in order except at its root. */
    method SubtractEntries(g: Group<P>, max1: nat, max2: nat, limbsize: nat)
      requires Valid() && Ordered() && size >= 3 && limbsize <= 4 && Fits(limbsize)
      requires max1 < size && max2 < size && max1 != max2 && heap[0] == max1 && keys[max2] <= keys[max1]
      modifies this`keys, points, scalars[max1]
      ensures Valid() && IsPerm(heap[..], size) && HeapButHole(heap[..], keys, size, 0) && Fits(limbsize)
      ensures keys == old(keys[max1 := keys[max1] - keys[max2]])
      ensures points[..] == old(points[..][max2 := g.add(points[max2], points[max1])])
    {
      hide IsPerm;
      hide IsHeap;
      hide HeapButHole;
      hide Limbs;
      hide Val;
      ghost var k := keys;
      KeysNonneg();
      SubInPlace(scalars[max1], scalars[max2], limbsize);
      points[max2] := g.add(points[max2], points[max1]);
      keys := keys[max1 := keys[max1] - keys[max2]];
      RootChanged(heap[..], k, keys, size);
    }

    /** What the loop of ge25519_multi_scalarmult_vartime keeps. */
    ghost predicate Loop(g: Group<P>, k0: seq<int>, p0: seq<P>, n0: nat, count: nat, extended: bool, limbsize: nat)
      reads this, heap, points, scalars
    {
      && Valid() && Ordered()
      && size == (if extended then count else n0) && size % 2 == 1
      && Reducing(g, k0, p0, keys, points[..], n0, count, extended, limbsize)
    }

    lemma LoopFits(g: Group<P>, k0: seq<int>, p0: seq<P>, n0: nat, count: nat, extended: bool, limbsize: nat)
      requires Loop(g, k0, p0, n0, count, extended, limbsize)
      ensures Valid() && Ordered()
      ensures size == (if extended then count else n0) && size % 2 == 1
      ensures Reducing(g, k0, p0, keys, points[..], n0, count, extended, limbsize)
      ensures 3 <= n0 <= count <= |keys| && limbsize <= 4 && Fits(limbsize)
    {
    }

    lemma LoopIs(g: Group<P>, k0: seq<int>, p0: seq<P>, n0: nat, count: nat, extended: bool, limbsize: nat)
      requires Valid() && Ordered()
      requires size == (if extended then count else n0) && size % 2 == 1
      requires Reducing(g, k0, p0, keys, points[..], n0, count, extended, limbsize)
      ensures Loop(g, k0, p0, n0, count, extended, limbsize)
    {
    }

    /** Drop an exhausted limb, and let the 128-bit scalars join when they may. */
    method Prepare(g: Group<P>, count: nat, limbsize: nat, extended: bool, max1: nat, max2: nat,
        ghost k0: seq<int>, ghost p0: seq<P>, ghost n0: nat)
      returns (limbs: nat, ext: bool, m1: nat, m2: nat)
      requires Loop(g, k0, p0, n0, count, extended, limbsize) && count % 2 == 1
      requires Valid() && n0 <= |keys|
      requires !extended ==> limbsize == 4 || SomeAtLeast(keys, n0, 0x8000_0000_0000_0000_0000_0000_0000_0000)
      requires TopTwo(keys, size, max1, max2) && heap[0] == max1
      modifies heap, this`size
      ensures Loop(g, k0, p0, n0, count, ext, limbs)
      ensures Valid() && size <= |keys|
      ensures TopTwo(keys, size, m1, m2) && heap[0] == m1
      ensures extended ==> ext
      ensures ext == extended ==> size == old(size)
      ensures !ext ==> keys[m1] >= TWO128
    {
      hide Reducing;
      hide Loop;
      hide SomeAtLeast;
      hide Ordered;
      hide Fits;
      TopTwoIn(keys, size, max1, max2);
      hide TopTwo;
      limbs, ext, m1, m2 := limbsize, extended, max1, max2;
      LoopFits(g, k0, p0, n0, count, extended, limbs);
      if scalars[m1][limbs] == 0 {
        Shrink(g, k0, p0, keys, points[..], n0, count, extended, limbs, m1, m2, scalars[m1][..]);
        limbs := limbs - 1;
      }
      var small := AtMost128Bits(scalars[m1]);
      if !ext && small {
        LoopIs(g, k0, p0, n0, count, ext, limbs);
        m1, m2 := JoinRest(g, count, limbs, m1, m2, k0, p0, n0);
        ext := true;
      } else {
        LoopIs(g, k0, p0, n0, count, ext, limbs);
      }
    }

    /** The 128-bit scalars join the heap and the two largest are looked up again. */
    method JoinRest(g: Group<P>, count: nat, limbsize: nat, max1: nat, max2: nat,
        ghost k0: seq<int>, ghost p0: seq<P>, ghost n0: nat)
      returns (m1: nat, m2: nat)
      requires Loop(g, k0, p0, n0, count, false, limbsize) && count % 2 == 1
      requires Valid() && size <= |keys| && TopTwo(keys, size, max1, max2) && keys[max1] < TWO128
      modifies heap, this`size
      ensures Loop(g, k0, p0, n0, count, true, limbsize)
      ensures Valid() && size <= |keys| && TopTwo(keys, size, m1, m2) && heap[0] == m1
    {
      hide Reducing;
      hide Loop;
      hide IsHeap;
      hide LimbBound;
      LoopFits(g, k0, p0, n0, count, false, limbsize);
      BosCarter.Extend(g, k0, p0, keys, points[..], n0, count, limbsize, max1, max2);
      TopTwoGrows(keys, n0, count, max1, max2);
      Extend(count);
      LoopIs(g, k0, p0, n0, count, true, limbsize);
      LoopFits(g, k0, p0, n0, count, true, limbsize);
      m1, m2 := GetTop2(limbsize);
      NewTopTwo(keys, count, m1, m2);
    }

    /** One turn of the main loop. */
    method Round(g: Group<P>, count: nat, limbsize: nat, extended: bool,
        ghost k0: seq<int>, ghost p0: seq<P>, ghost n0: nat)
      returns (done: bool, limbs: nat, ext: bool, max1: nat)
      requires Loop(g, k0, p0, n0, count, extended, limbsize) && count % 2 == 1 && IsAbelian(g)
      requires Valid() && n0 <= |keys|
      requires !extended ==> limbsize == 4 || SomeAtLeast(keys, n0, 0x8000_0000_0000_0000_0000_0000_0000_0000)
      modifies this`size, this`keys, heap, points, scalars
      ensures Loop(g, k0, p0, n0, count, ext, limbs)
      ensures Valid() && |keys| == old(|keys|)
      ensures done ==> max1 < size && OnlyAt(keys, size, max1)
      ensures !done ==> (!ext ==> SomeAtLeast(keys, n0, 0x8000_0000_0000_0000_0000_0000_0000_0000))
      ensures !done ==> KeySum(keys, size) >= 0 && (extended ==> ext)
      ensures !done && ext == extended ==> KeySum(keys, size) < old(KeySum(keys, size))
    {
      hide IsAbelian;
      hide Reducing;
      hide Loop;
      hide KeySum;
      hide SomeAtLeast;
      hide Ordered;
      hide Fits;
      limbs, ext := limbsize, extended;
      LoopFits(g, k0, p0, n0, count, extended, limbsize);
      var max2;
      max1, max2 := GetTop2(limbsize);
      done := IsZero(scalars[max2]);
      if !done {
        limbs, ext, max1, max2 := Prepare(g, count, limbsize, extended, max1, max2, k0, p0, n0);
        TakeStep(g, count, limbs, ext, max1, max2, k0, p0, n0);
      }
    }

    /** The subtraction, the point addition and the heap repaired: one step. */
    method TakeStep(g: Group<P>, count: nat, limbsize: nat, extended: bool, max1: nat, max2: nat,
        ghost k0: seq<int>, ghost p0: seq<P>, ghost n0: nat)
      requires Loop(g, k0, p0, n0, count, extended, limbsize) && IsAbelian(g)
      requires Valid() && n0 <= |keys| && size <= |keys|
      requires TopTwo(keys, size, max1, max2) && heap[0] == max1
      requires !extended ==> keys[max1] >= TWO128
      modifies this`keys, heap, points, scalars[max1]
      ensures Loop(g, k0, p0, n0, count, extended, limbsize)
      ensures Valid() && |keys| == old(|keys|)
      ensures !extended ==> SomeAtLeast(keys, n0, 0x8000_0000_0000_0000_0000_0000_0000_0000)
      ensures 0 <= KeySum(keys, size) < old(KeySum(keys, size))
    {
      hide IsAbelian;
      hide Reducing;
      hide Loop;
      hide KeySum;
      hide SomeAtLeast;
      LoopFits(g, k0, p0, n0, count, extended, limbsize);
      KeysNonneg();
      Step(g, k0, p0, keys, points[..], n0, count, extended, limbsize, max1, max2);
      StepMeasure(keys, size, max1, max2);
      Subtract(g, max1, max2, limbsize);
      LoopIs(g, k0, p0, n0, count, extended, limbsize);
    }

    lemma KeysNonneg()
      requires Valid()
      ensures forall i :: 0 <= i < |keys| ==> keys[i] >= 0
    {
    }

    /** ge25519_multi_scalarmult_vartime. */
    method MultiScalarmult(g: Group<P>, count: nat) returns (r: P)
      requires Valid() && IsAbelian(g)
      requires 5 <= count <= heap.Length && count % 2 == 1 && Ready(keys, count)
      modifies this`size, this`keys, heap, points, scalars
      ensures Valid()
      ensures LeftOver(g, old(keys), old(points[..]), count, r)
    {
      hide IsAbelian;
      hide Reducing;
      hide Loop;
      ghost var k0, p0, n0 := keys, points[..], InitialSize(count);
      InitialSizeOdd(count);
      var max1: nat, limbsize: nat := 0, 4;
      var extended, done := false, false;
      Build(Or((count + 1) / 2, 1));
      LoopStart(g, n0, count);
      while !done
        invariant Loop(g, k0, p0, n0, count, extended, limbsize)
        invariant Valid() && |keys| == |k0|
        invariant !done && !extended ==>
            limbsize == 4 || SomeAtLeast(keys, n0, 0x8000_0000_0000_0000_0000_0000_0000_0000)
        invariant done ==> max1 < size && OnlyAt(keys, size, max1)
        decreases !done, if extended then 0 else 1, KeySum(keys, size)
      {
        done, limbsize, extended, max1 := Round(g, count, limbsize, extended, k0, p0, n0);
      }
      LoopEnd(g, k0, p0, n0, count, extended, limbsize, max1);
      r := Final(g, points[max1], scalars[max1]);
      LeftOverIs(g, k0, p0, count, keys[max1], points[max1]);
    }

    lemma LoopStart(g: Group<P>, n0: nat, count: nat)
      requires Valid() && Ordered() && 3 <= n0 <= count <= heap.Length && size == n0 && n0 % 2 == 1
      requires forall i :: n0 <= i < count ==> keys[i] < TWO128
      ensures Loop(g, keys, points[..], n0, count, false, 4)
      ensures size <= |keys|
    {
      AllBounded(count);
      Start(g, keys, points[..], n0, count);
    }

    lemma LoopEnd(g: Group<P>, k0: seq<int>, p0: seq<P>, n0: nat, count: nat, extended: bool, limbsize: nat, a: nat)
      requires Loop(g, k0, p0, n0, count, extended, limbsize) && IsAbelian(g)
      requires a < size && OnlyAt(keys, size, a) && |k0| == |p0| == |keys| && n0 <= count <= |k0|
      requires AllZero(k0, n0) || !CommonDivisor(TWO224, k0, n0)
      ensures Valid() && a < |keys| && a < points.Length && a < |scalars|
      ensures keys[a] == 0 || (keys[a] > 0 && LowLimbs(keys[a]) != 0)
      ensures extended <==> Extends(k0, n0)
      ensures IsGcd(keys[a], k0, if extended then count else n0)
      ensures Total(g, k0, p0, if extended then count else n0) == Mul(g, keys[a], points[a])
    {
      LoopFits(g, k0, p0, n0, count, extended, limbsize);
      Finish(g, k0, p0, keys, points[..], n0, count, extended, limbsize, a);
      FinalSafe(k0, n0, count, extended, keys[a]);
    }

    lemma AllBounded(count: nat)
      requires Valid() && count <= |keys|
      ensures forall i :: 0 <= i < count ==> 0 <= keys[i] < LimbBound(4)
    {
      forall i | 0 <= i < count
        ensures 0 <= keys[i] < LimbBound(4)
      {
        TruncExact(scalars[i][..], 4);
      }
    }
  }

  /** `((count + 1) / 2) | 1`: how many entries the heap starts with. */
  function InitialSize(count: nat): nat {
    Or((count + 1) / 2, 1)
  }

  lemma InitialSizeOdd(count: nat)
    requires count >= 5 && count % 2 == 1
    ensures 3 <= InitialSize(count) <= count && InitialSize(count) % 2 == 1
  {
    var x := (count + 1) / 2;
    assert Or(x / 2, 0) == x / 2;
    assert InitialSize(count) == 2 * (x / 2) + 1;
  }

  /** Of 2n + 1 entries, the least odd number above n. */
  lemma InitialSizeIs(n: nat)
    ensures InitialSize(2 * n + 1) == if n % 2 == 0 then n + 1 else n + 2
  {
    var x := n + 1;
    assert (2 * n + 1 + 1) / 2 == x;
    assert Or(x / 2, 0) == x / 2;
  }

  lemma InitialSizeHalf(count: nat)
    ensures (count + 1) / 2 <= InitialSize(count)
  {
    var x := (count + 1) / 2;
    assert Or(x / 2, 0) == x / 2;
  }

  /**
   What the caller sees to: the entries that join late are 128-bit numbers, and the first half are not all
   multiples of 2^224 (the final multiplication would then search below limb 0).
   */
  ghost predicate Ready(k: seq<int>, count: nat) {
    && InitialSize(count) <= count <= |k|
    && (forall i :: InitialSize(count) <= i < count ==> k[i] < TWO128)
    && (AllZero(k, InitialSize(count)) || !CommonDivisor(TWO224, k, InitialSize(count)))
  }

  /**
   What comes back: with n the number of entries that took part, the sum of their scalar multiples is
   [x]p for x the gcd of their scalars, and the result is that point's `Multiple(x)`.
   */
  ghost predicate LeftOver<P(!new)>(g: Group<P>, k: seq<int>, p: seq<P>, count: nat, r: P)
    requires InitialSize(count) <= |k| && count <= |k| && |p| == |k|
  {
    var n := if Extends(k, InitialSize(count)) then count else InitialSize(count);
    exists x: nat, q: P :: IsLeftOver(g, k, p, n, x, q) && r == Mul(g, Multiple(x), q)
  }

  ghost predicate IsLeftOver<P>(g: Group<P>, k: seq<int>, p: seq<P>, n: nat, x: nat, q: P)
    requires n <= |k| && n <= |p|
  {
    IsGcd(x, k, n) && Total(g, k, p, n) == Mul(g, x, q)
  }

  lemma LeftOverIs<P(!new)>(g: Group<P>, k: seq<int>, p: seq<P>, count: nat, x: nat, q: P)
    requires InitialSize(count) <= |k| && count <= |k| && |p| == |k|
    requires IsLeftOver(g, k, p, if Extends(k, InitialSize(count)) then count else InitialSize(count), x, q)
    ensures LeftOver(g, k, p, count, Mul(g, Multiple(x), q))
  {
  }

  /**
   The whole sum is returned if the 128-bit scalars joined and the gcd of all scalars is 1.
   */
  lemma WholeSum<P(!new)>(g: Group<P>, k: seq<int>, p: seq<P>, count: nat, r: P)
    requires InitialSize(count) <= |k| && count <= |k| && |p| == |k| && IsAbelian(g)
    requires LeftOver(g, k, p, count, r)
    requires Extends(k, InitialSize(count)) && IsGcd(1, k, count)
    ensures r == Total(g, k, p, count)
  {
    hide IsAbelian;
    hide Total;
    var x: nat, q: P :| IsLeftOver(g, k, p, count, x, q) && r == Mul(g, Multiple(x), q);
    GcdUnique(x, 1, k, count);
    hide Mul;
  }

  /**
   Where the 128-bit scalars do not join and the others have no common factor, the others' sum alone comes back:
   the result is the whole sum exactly when the terms that stayed out add up to the identity.
   */
  lemma PartOfSum<P(!new)>(g: Group<P>, k: seq<int>, p: seq<P>, count: nat, x: nat, r: P)
    requires InitialSize(count) <= count <= |k| && |p| == |k| && IsAbelian(g)
    requires LeftOver(g, k, p, count, r)
    requires !Extends(k, InitialSize(count)) && x <= 1 && IsGcd(x, k, InitialSize(count))
    ensures r == Total(g, k, p, InitialSize(count))
    ensures r == Total(g, k, p, count) <==> Sum(g, Terms(g, k, p, count)[InitialSize(count)..]) == g.zero
  {
    hide IsAbelian;
    hide InitialSize;
    hide Extends;
    hide IsGcd;
    var n := InitialSize(count);
    var y: nat, q: P :| IsLeftOver(g, k, p, n, y, q) && r == Mul(g, Multiple(y), q);
    GcdUnique(x, y, k, n);
    hide Mul;
    var a, b := Terms(g, k, p, n), Terms(g, k, p, count)[n..];
    assert Terms(g, k, p, count) == a + b;
    SumAppend(g, a, b);
    hide Sum;
    Identity(g, r);
    Commute(g, r, Sum(g, b));
    if g.add(r, Sum(g, b)) == r {
      Commute(g, r, g.zero);
      Groups.Cancel(g, Sum(g, b), g.zero, r);
    }
  }

  /** A batch of five whose first half has one nonzero scalar: the other nonzero scalar's point is left out. */
  lemma OneScalarAlone<P(!new)>(g: Group<P>, p: seq<P>, r: P)
    requires IsAbelian(g) && |p| == 5 && LeftOver(g, [1, 0, 0, 1, 0], p, 5, r)
    ensures Ready([1, 0, 0, 1, 0], 5)
    ensures r == p[0] && Total(g, [1, 0, 0, 1, 0], p, 5) == g.add(p[0], p[3])
    ensures r == Total(g, [1, 0, 0, 1, 0], p, 5) <==> p[3] == g.zero
  {
    hide IsAbelian;
    var k := [1, 0, 0, 1, 0];
    assert InitialSize(5) == 3;
    assert k[0] % 0x1_0000_0000_0000_0000_0000_0000_0000_0000_0000_0000_0000_0000_0000_0000 == 1;
    FirstHalfOfOne();
    PartOfSum(g, k, p, 5, 1, r);
    FiveTerms(g, p);
  }

  /** Scalars whose first half is 2^224, 0, 0: what is left over is 2^224, and limbs 3 to 0 hold no bit of it. */
  lemma NoLimbFound()
    ensures IsGcd(TWO224, [TWO224, 0, 0, 0, 0], 3) && !Extends([TWO224, 0, 0, 0, 0], 3) && LowLimbs(TWO224) == 0
    ensures !Ready([TWO224, 0, 0, 0, 0], 5)
  {
    var k := [TWO224, 0, 0, 0, 0];
    assert InitialSize(5) == 3;
    forall d | d > 0
      ensures CommonDivisor(d, k, 3) <==> TWO224 % d == 0
    {
      assert k[0] == TWO224 && k[1] == 0 && k[2] == 0;
      DivModUnique(0, d, 0, 0);
    }
    FinalSafe(k, 3, 5, false, TWO224);
  }

  lemma FirstHalfOfOne()
    ensures IsGcd(1, [1, 0, 0, 1, 0], 3) && !TwoNonzero([1, 0, 0, 1, 0], 3)
  {
    var k := [1, 0, 0, 1, 0];
    forall d | d > 0
      ensures CommonDivisor(d, k, 3) <==> 1 % d == 0
    {
      assert k[0] == 1 && k[1] == 0 && k[2] == 0;
    }
  }

  lemma FiveTerms<P(!new)>(g: Group<P>, p: seq<P>)
    requires IsAbelian(g) && |p| == 5
    ensures Total(g, [1, 0, 0, 1, 0], p, 3) == p[0]
    ensures Total(g, [1, 0, 0, 1, 0], p, 5) == g.add(p[0], p[3])
    ensures Sum(g, Terms(g, [1, 0, 0, 1, 0], p, 5)[3..]) == p[3]
  {
    hide IsAbelian;
    MulOne(g, p[0]);
    MulOne(g, p[3]);
    Identity(g, p[0]);
    Identity(g, p[3]);
    Identity(g, g.add(p[0], p[3]));
    var t := Terms(g, [1, 0, 0, 1, 0], p, 5);
    assert t == [p[0], g.zero, g.zero, p[3], g.zero];
    assert Terms(g, [1, 0, 0, 1, 0], p, 3) == [p[0], g.zero, g.zero];
    SumSingle(g, [p[0], g.zero, g.zero], 0);
    SumSingle(g, [p[3], g.zero], 0);
    SumAppend(g, [p[0], g.zero, g.zero], [p[3], g.zero]);
    assert t == [p[0], g.zero, g.zero] + [p[3], g.zero];
    hide Sum;
  }

  lemma GcdUnique(x: nat, y: nat, k: seq<int>, n: nat)
    requires n <= |k| && IsGcd(x, k, n) && IsGcd(y, k, n)
    ensures x == y
  {
    SameDivisorsEqual(x, y, k, n);
    SameDivisorsEqual(y, x, k, n);
  }

  lemma SameDivisorsEqual(x: nat, y: nat, k: seq<int>, n: nat)
    requires n <= |k| && IsGcd(x, k, n) && IsGcd(y, k, n)
    ensures x == 0 ==> y == 0
    ensures x > 0 && y > 0 ==> x <= y
  {
    if x == 0 {
      DivModUnique(0, y + 1, 0, 0);
      DivModUnique(y, y + 1, 0, y);
      assert CommonDivisor(y + 1, k, n);
    } else if y > 0 {
      ModSelf(x);
      assert CommonDivisor(x, k, n);
      DivisorAtMost(x, y);
    }
  }

  ghost predicate AllZero(k: seq<int>, n: nat)
    requires n <= |k|
  {
    forall i :: 0 <= i < n ==> k[i] == 0
  }

  /** Whatever the root's new key, the rest of the heap is still in order. */
  lemma RootChanged(h: seq<nat>, k: seq<int>, s: seq<int>, n: nat)
    requires 0 < n <= |h| && n <= |k| == |s| && IsPerm(h, n) && IsHeap(h, k, n)
    requires forall i :: 0 <= i < |k| && i != h[0] ==> s[i] == k[i]
    ensures HeapButHole(h, s, n, 0)
  {
  }

  /**
   The left-over key can be handed to the final multiplication, which searches limbs 3 to 0 for a bit, exactly when the
   first scalars are all zero or not all multiples of 2^224.
   */
  lemma FinalSafe(k0: seq<int>, n0: nat, count: nat, extended: bool, x: int)
    requires n0 <= count <= |k0|
    requires extended <==> Extends(k0, n0)
    requires IsGcd(x, k0, if extended then count else n0) && x >= 0
    ensures (x == 0 || LowLimbs(x) != 0)
            <==> (AllZero(k0, n0) || !CommonDivisor(TWO224, k0, n0))
  {
    var n := if extended then count else n0;
    if x % 0x1_0000_0000_0000_0000_0000_0000_0000_0000_0000_0000_0000_0000_0000_0000 == 0 {
      assert CommonDivisor(TWO224, k0, n);
      assert CommonDivisor(TWO224, k0, n0);
      if AllZero(k0, n0) {
        AllZeroDivisor(k0, n0, x + 1);
        DivModUnique(x, x + 1, 0, x);
        assert n == n0 ==> x % (x + 1) == 0;
      }
    }
    if x == 0 && !extended {
      ZeroGcd(k0, n0);
    }
    DivModUnique(0, 0x1_0000_0000_0000_0000_0000_0000_0000_0000_0000_0000_0000_0000_0000_0000, 0, 0);
  }

  lemma ZeroGcd(k: seq<int>, n: nat)
    requires n <= |k| && IsGcd(0, k, n)
    ensures AllZero(k, n)
  {
    forall i | 0 <= i < n
      ensures k[i] == 0
    {
      var d := if k[i] < 0 then 1 - k[i] else 1 + k[i];
      DivModUnique(0, d, 0, 0);
      assert CommonDivisor(d, k, n);
      DivModUnique(k[i], d, if k[i] < 0 then -1 else 0, if k[i] < 0 then 1 else k[i]);
    }
  }

  lemma AllZeroDivisor(k: seq<int>, n: nat, d: int)
    requires d > 0 && n <= |k| && AllZero(k, n)
    ensures CommonDivisor(d, k, n)
  {
    DivModUnique(0, d, 0, 0);
  }

  lemma TopTwoIn(k: seq<int>, n: nat, a: nat, b: nat)
    requires n <= |k| && TopTwo(k, n, a, b)
    ensures a < n && b < n && a != b
  {
  }

  lemma TopTwoGrows(k: seq<int>, n: nat, count: nat, a: nat, b: nat)
    requires n <= count <= |k| && TopTwo(k, n, a, b)
    ensures exists i, j :: 0 <= i < count && 0 <= j < count && i != j && k[i] > 0 && k[j] > 0
  {
    assert k[a] > 0 && k[b] > 0;
  }

  lemma NewTopTwo(k: seq<int>, n: nat, a: nat, b: nat)
    requires n <= |k| && a < n && b < n && a != b
    requires forall i :: 0 <= i < n ==> k[i] <= k[a]
    requires forall i :: 0 <= i < n && i != a ==> k[i] <= k[b]
    requires exists i, j :: 0 <= i < n && 0 <= j < n && i != j && k[i] > 0 && k[j] > 0
    ensures TopTwo(k, n, a, b)
  {
  }

  /** A new last entry keeps the rest in order; only it may exceed its parent. */
  lemma AddedLeaf(h: seq<nat>, s: seq<nat>, k: seq<int>, n: nat)
    requires 0 < n <= |h| && |s| == |h| == |k| && s[..n - 1] == h[..n - 1] && s[n - 1] == n - 1
    requires IsPerm(h, n - 1) && IsHeap(h, k, n - 1)
    ensures IsPerm(s, n) && HeapButUp(s, k, n, n - 1)
  {
    assert forall i :: 0 <= i < n - 1 ==> s[i] == s[..n - 1][i] == h[i];
    assert forall i :: 0 < i < n ==> Par(i) != n - 1;
  }
}
