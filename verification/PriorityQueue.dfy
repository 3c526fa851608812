/** The priority queue of build_tree in gzip.c: an array heap of tree nodes, ordered
    by frequency and, for equal frequency, by depth. */
module PriorityQueue {
  import opened Bits

  /** SMALLER of gzip.c, as an order on numbers. */
  ghost function Key(freq: seq<nat>, depth: seq<byte>, x: int): (k: int)
    requires 0 <= x < |freq| && x < |depth|
  {
    256 * freq[x] + depth[x]
  }

  ghost function Keys(freq: seq<nat>, depth: seq<byte>): (k: seq<int>)
    requires |freq| <= |depth|
    ensures |k| == |freq| && forall x :: 0 <= x < |k| ==> k[x] == Key(freq, depth, x)
  {
    seq(|freq|, x requires 0 <= x < |freq| => Key(freq, depth, x))
  }

  /** h[1..len] are nodes with a key. */
  ghost predicate Nodes(h: seq<int>, len: nat, keys: seq<int>)
  {
    len < |h| && forall i :: 1 <= i <= len ==> 0 <= h[i] < |keys|
  }

  /** Father p is not larger than its sons. */
  ghost predicate InOrder(h: seq<int>, len: nat, keys: seq<int>, p: nat)
    requires Nodes(h, len, keys)
  {
    1 <= p && 2 * p <= len ==>
      keys[h[p]] <= keys[h[2 * p]] && (2 * p + 1 <= len ==> keys[h[p]] <= keys[h[2 * p + 1]])
  }

  /** Heap order at every father from lo on, except k. */
  ghost predicate HeapExcept(h: seq<int>, len: nat, keys: seq<int>, lo: nat, k: nat)
    requires Nodes(h, len, keys)
  {
    forall p :: lo <= p && p != k ==> InOrder(h, len, keys, p)
  }

  ghost predicate IsHeap(h: seq<int>, len: nat, keys: seq<int>, lo: nat)
    requires Nodes(h, len, keys)
  {
    forall p :: lo <= p ==> InOrder(h, len, keys, p)
  }

  /** The father of k, if it is subject to the order, is not larger than the sons of k. */
  ghost predicate FatherBelowSons(h: seq<int>, len: nat, keys: seq<int>, lo: nat, k: nat)
    requires Nodes(h, len, keys)
  {
    forall p :: lo <= p && (k == 2 * p || k == 2 * p + 1) && 1 <= p ==>
      (2 * k <= len ==> keys[h[p]] <= keys[h[2 * k]]) &&
      (2 * k + 1 <= len ==> keys[h[p]] <= keys[h[2 * k + 1]])
  }

  /** h[1..len] lists the members of s, each once. */
  ghost predicate Lists(h: seq<int>, len: nat, s: set<int>)
  {
    len < |h| && |s| == len &&
    (forall i :: 1 <= i <= len ==> h[i] in s) &&
    (forall i, j :: 1 <= i < j <= len ==> h[i] != h[j])
  }

  ghost function Swap(h: seq<int>, i: nat, j: nat): (r: seq<int>)
    requires i < |h| && j < |h|
    ensures |r| == |h| && forall x :: 0 <= x < |h| ==> r[x] == if x == i then h[j] else if x == j then h[i] else h[x]
  {
    h[i := h[j]][j := h[i]]
  }

  lemma SwapLists(h: seq<int>, len: nat, s: set<int>, i: nat, j: nat)
    requires Lists(h, len, s) && 1 <= i <= len && 1 <= j <= len
    ensures Lists(Swap(h, i, j), len, s)
  {
  }

  ghost predicate SmallestSon(h: seq<int>, len: nat, keys: seq<int>, k: nat, j: nat)
    requires Nodes(h, len, keys)
  {
    1 <= k && j <= len && (j == 2 * k || j == 2 * k + 1) && keys[h[j]] <= keys[h[2 * k]] &&
    (2 * k + 1 <= len ==> keys[h[j]] <= keys[h[2 * k + 1]])
  }

  /** Moving the smallest son up moves the only possible disorder down to its place. */
  lemma SiftStep(h: seq<int>, len: nat, keys: seq<int>, lo: nat, k: nat, j: nat)
    requires Nodes(h, len, keys) && 1 <= lo <= k && SmallestSon(h, len, keys, k, j)
    requires HeapExcept(h, len, keys, lo, k) && FatherBelowSons(h, len, keys, lo, k)
    requires keys[h[j]] <= keys[h[k]]
    ensures var h' := Swap(h, k, j);
            Nodes(h', len, keys) && HeapExcept(h', len, keys, lo, j) && FatherBelowSons(h', len, keys, lo, j)
  {
    var h' := Swap(h, k, j);
    forall p | lo <= p && p != j ensures InOrder(h', len, keys, p) {
      if p != k { assert InOrder(h, len, keys, p); }
    }
    assert InOrder(h, len, keys, j);
  }

  lemma SiftEnd(h: seq<int>, len: nat, keys: seq<int>, lo: nat, k: nat)
    requires Nodes(h, len, keys) && HeapExcept(h, len, keys, lo, k) && InOrder(h, len, keys, k)
    ensures IsHeap(h, len, keys, lo)
  {
  }

  predicate Smaller(fn: nat, dn: byte, fm: nat, dm: byte)
  {
    fn < fm || (fn == fm && dn <= dm)
  }

  lemma SmallerIsKey(freq: seq<nat>, depth: seq<byte>, n: int, m: int)
    requires |freq| <= |depth| && 0 <= n < |freq| && 0 <= m < |freq|
    ensures Smaller(freq[n], depth[n], freq[m], depth[m]) <==> Keys(freq, depth)[n] <= Keys(freq, depth)[m]
  {
  }

  /** Restore the heap order at node k, when it holds below k. */
  method PqDownHeap(heap: array<ush>, heapLen: nat, fc: array<ush>, depth: array<byte>, k0: nat, ghost s: set<int>)
    requires heap != fc && fc.Length <= depth.Length && 1 <= k0 <= heapLen < heap.Length
    requires Nodes(heap[..], heapLen, Keys(fc[..], depth[..fc.Length]))
    requires IsHeap(heap[..], heapLen, Keys(fc[..], depth[..fc.Length]), k0 + 1)
    requires Lists(heap[..], heapLen, s)
    modifies heap
    ensures Nodes(heap[..], heapLen, Keys(fc[..], depth[..fc.Length]))
    ensures IsHeap(heap[..], heapLen, Keys(fc[..], depth[..fc.Length]), k0)
    ensures Lists(heap[..], heapLen, s)
    ensures forall i :: 0 <= i < heap.Length && (i == 0 || i > heapLen) ==> heap[i] == old(heap[i])
  {
    hide Keys, InOrder, HeapExcept, IsHeap, FatherBelowSons, Lists;
    ghost var freq: seq<nat>, dep := fc[..], depth[..fc.Length];
    ghost var keys := Keys(freq, dep);
    var v, k, j := heap[k0], k0, 2 * k0;
    ghost var h: seq<int> := heap[..];
    Start(h, heapLen, keys, k0);
    while j <= heapLen
      invariant k0 <= k <= heapLen && j == 2 * k
      invariant |h| == heap.Length && h[k] == v && heap[..][k := v] == h
      invariant Nodes(h, heapLen, keys) && HeapExcept(h, heapLen, keys, k0, k)
      invariant FatherBelowSons(h, heapLen, keys, k0, k) && Lists(h, heapLen, s)
      invariant forall i :: 0 <= i < heap.Length && (i == 0 || i > heapLen) ==> heap[i] == old(heap[i])
      decreases heapLen - k
    {
      assert forall i :: 1 <= i <= heapLen && i != k ==> heap[i] == h[i];
      if j < heapLen {
        SmallerIsKey(freq, dep, heap[j + 1], heap[j]);
        if Smaller(fc[heap[j + 1]], depth[heap[j + 1]], fc[heap[j]], depth[heap[j]]) { j := j + 1; }
      }
      assert SmallestSon(h, heapLen, keys, k, j);
      SmallerIsKey(freq, dep, v, heap[j]);
      if Smaller(fc[v], depth[v], fc[heap[j]], depth[heap[j]]) {
        Settled(h, heapLen, keys, k, j);
        break;
      }
      SiftStep(h, heapLen, keys, k0, k, j);
      SwapLists(h, heapLen, s, k, j);
      heap[k] := heap[j];
      h := Swap(h, k, j);
      k := j;
      j := 2 * j;
    }
    heap[k] := v;
    assert heap[..] == h;
    Leaf(h, heapLen, keys, k);
    SiftEnd(h, heapLen, keys, k0, k);
  }

  lemma Start(h: seq<int>, len: nat, keys: seq<int>, k: nat)
    requires Nodes(h, len, keys) && IsHeap(h, len, keys, k + 1)
    ensures HeapExcept(h, len, keys, k, k) && FatherBelowSons(h, len, keys, k, k)
  {
  }

  lemma Settled(h: seq<int>, len: nat, keys: seq<int>, k: nat, j: nat)
    requires Nodes(h, len, keys) && SmallestSon(h, len, keys, k, j) && keys[h[k]] <= keys[h[j]]
    ensures InOrder(h, len, keys, k)
  {
  }

  lemma Leaf(h: seq<int>, len: nat, keys: seq<int>, k: nat)
    requires Nodes(h, len, keys)
    ensures 2 * k > len ==> InOrder(h, len, keys, k)
  {
  }

  /** The node at the top of the heap is the smallest. */
  lemma {:induction false} TopSmallest(h: seq<int>, len: nat, keys: seq<int>, i: nat)
    requires Nodes(h, len, keys) && IsHeap(h, len, keys, 1) && 1 <= i <= len
    ensures keys[h[1]] <= keys[h[i]]
  {
    if i > 1 {
      TopSmallest(h, len, keys, i / 2);
      assert InOrder(h, len, keys, i / 2);
    }
  }

  /** A list of |s| different members of s lists all of s. */
  lemma {:induction false} ListsAll(h: seq<int>, len: nat, s: set<int>, z: int)
    requires Lists(h, len, s) && z in s
    ensures exists i :: 1 <= i <= len && h[i] == z
    decreases len
  {
    if h[len] != z {
      var s' := s - {h[len]};
      assert Lists(h, len - 1, s');
      ListsAll(h, len - 1, s', z);
    }
  }
}
