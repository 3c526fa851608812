/** build_tree of gzip.c: from symbol frequencies to code lengths and codes. */
module BuildTree {
  import opened Bits
  import opened Limits
  import opened Canonical
  import opened Sums
  import opened Merges
  import opened Optimal
  import opened TreeOrder
  import opened PriorityQueue
  import opened Forest
  import opened CodeCost
  import FirstPass
  import LengthLimit
  import GenCodes

  /** The arrays and counters every tree construction shares. */
  class Work {
    const heap: array<ush>
    const depth: array<byte>
    const blCount: array<ush>
    var heapLen: nat
    var heapMax: nat
    var optLen: int       // bits of the block with its own trees, as far as known
    var staticLen: int    // the same with the fixed trees

    ghost predicate Valid()
    {
      heap.Length == HEAP_SIZE && depth.Length == HEAP_SIZE && blCount.Length == MAX_BITS + 1 && heap != blCount
    }

    constructor ()
      ensures Valid() && fresh(heap) && fresh(depth) && fresh(blCount)
      ensures optLen == 0 && staticLen == 0
    {
      heap := new ush[HEAP_SIZE](_ => 0);
      depth := new byte[HEAP_SIZE](_ => 0);
      blCount := new ush[MAX_BITS + 1](_ => 0);
      heapLen, heapMax, optLen, staticLen := 0, 0, 0, 0;
    }
  }

  /** A tree descriptor. Each tree element has two cells: fc holds a frequency, later a
      code; dl holds the father node, later a code length. */
  class TreeDesc {
    const fc: array<ush>
    const dl: array<ush>
    const stat: Option<seq<nat>>   // code lengths of the corresponding static tree
    const extra: seq<nat>          // extra bits of the codes from extraBase on
    const extraBase: nat
    const elems: nat
    const maxLength: nat
    var maxCode: int               // largest code of non-zero frequency

    ghost predicate Valid()
    {
      fc.Length == dl.Length == 2 * elems + 1 && fc != dl && 3 <= elems <= L_CODES &&
      extraBase + |extra| >= elems && 0 < maxLength <= MAX_BITS && elems <= Pow2(maxLength) &&
      (stat.Some? ==> |stat.value| >= elems) &&
      (forall j :: 0 <= j < |extra| && extraBase + j < 3 ==> extra[j] == 0)
    }

    /** The number of extra bits of each symbol. */
    ghost function Extras(): (x: seq<nat>)
      requires Valid()
      ensures |x| == elems
    {
      FirstPass.ExtraBits(extra, extraBase, elems)
    }

    constructor (elems: nat, extra: seq<nat>, extraBase: nat, maxLength: nat, stat: Option<seq<nat>>)
      requires 3 <= elems <= L_CODES && extraBase + |extra| >= elems
      requires 0 < maxLength <= MAX_BITS && elems <= Pow2(maxLength)
      requires stat.Some? ==> |stat.value| >= elems
      requires forall j :: 0 <= j < |extra| && extraBase + j < 3 ==> extra[j] == 0
      ensures Valid() && fresh(fc) && fresh(dl)
      ensures this.elems == elems && this.extra == extra && this.extraBase == extraBase
      ensures this.maxLength == maxLength && this.stat == stat
      ensures forall n :: 0 <= n < fc.Length ==> fc[n] == 0
    {
      fc := new ush[2 * elems + 1](_ => 0);
      dl := new ush[2 * elems + 1](_ => 0);
      this.elems, this.extra, this.extraBase := elems, extra, extraBase;
      this.maxLength, this.stat := maxLength, stat;
      maxCode := 0;
    }
  }

  ghost predicate Apart(w: Work, d: TreeDesc)
  {
    w.Valid() && d.Valid() &&
    w.heap != d.fc && w.heap != d.dl && w.blCount != d.fc && w.blCount != d.dl
  }

  /** The symbols of non-zero frequency. */
  ghost function NonZero(f: seq<nat>): (s: set<int>)
  {
    set n | 0 <= n < |f| && f[n] != 0
  }

  lemma NoLeaves(f: seq<nat>, h: seq<int>)
    requires f == [] && |h| > 0
    ensures NonZero(f) == {} && Lists(h, 0, {})
  {
  }

  lemma NextLeaf(f: seq<nat>, n: nat)
    requires n < |f|
    ensures NonZero(f[..n + 1]) == if f[n] != 0 then NonZero(f[..n]) + {n} else NonZero(f[..n])
    ensures n !in NonZero(f[..n])
  {
  }

  lemma ListsPush(h: seq<int>, len: nat, s: set<int>, n: int)
    requires Lists(h, len, s) && n !in s && len + 1 < |h|
    ensures Lists(h[len + 1 := n], len + 1, s + {n})
  {
  }

  /** Put the symbols of non-zero frequency in the queue. */
  method CollectLeaves(w: Work, d: TreeDesc) returns (maxCode: int, ghost leaves: set<int>)
    requires Apart(w, d)
    modifies w`heapLen, w`heapMax, w.heap, w.depth, d.dl
    ensures w.heapMax == HEAP_SIZE && leaves == NonZero(d.fc[..d.elems])
    ensures Lists(w.heap[..], w.heapLen, leaves) && w.heapLen <= d.elems
    ensures forall n :: 0 <= n < d.elems && n !in leaves ==> d.dl[n] == 0
    ensures -1 <= maxCode < d.elems && (forall n :: n in leaves ==> 0 <= n <= maxCode)
    ensures maxCode >= 0 ==> maxCode in leaves
  {
    hide NonZero, Lists;
    w.heapLen, w.heapMax := 0, HEAP_SIZE;
    maxCode := -1;
    leaves := {};
    NoLeaves(d.fc[..0], w.heap[..]);
    for n := 0 to d.elems
      invariant w.heapLen <= n && w.heapMax == HEAP_SIZE
      invariant leaves == NonZero(d.fc[..n]) && Lists(w.heap[..], w.heapLen, leaves)
      invariant forall i :: 0 <= i < n && i !in leaves ==> d.dl[i] == 0
      invariant -1 <= maxCode < n && (forall i :: i in leaves ==> 0 <= i <= maxCode)
      invariant maxCode >= 0 ==> maxCode in leaves
    {
      NextLeaf(d.fc[..], n);
      assert d.fc[..][..n] == d.fc[..n] && d.fc[..][..n + 1] == d.fc[..n + 1];
      if d.fc[n] != 0 {
        ghost var h := w.heap[..];
        ListsPush(h, w.heapLen, leaves, n);
        w.heapLen := w.heapLen + 1;
        w.heap[w.heapLen] := n;
        maxCode := n;
        w.depth[n] := 0;
        leaves := leaves + {n};
        assert w.heap[..] == h[w.heapLen := n];
      } else {
        d.dl[n] := 0;
      }
    }
  }

  /** Cost of the forced codes: each has frequency 1 and no extra bits. */
  ghost function StatOf(d: TreeDesc, n: int): (c: nat)
    requires d.Valid() && 0 <= n < d.elems
  {
    if d.stat.Some? then d.stat.value[n] else 0
  }

  /** f' is f with frequency 1 given to the members of forced, which had none. */
  ghost predicate Forced(f: seq<nat>, f': seq<nat>, forced: set<int>)
  {
    |f| == |f'| && (forall n :: n in forced ==> 0 <= n < |f| && n < 3 && f[n] == 0 && f'[n] == 1) &&
    forall n :: 0 <= n < |f| && n !in forced ==> f'[n] == f[n]
  }

  ghost function StatSum(d: TreeDesc, forced: set<int>): (c: int)
    requires d.Valid()
  {
    (if 0 in forced then StatOf(d, 0) else 0) + (if 1 in forced then StatOf(d, 1) else 0) +
    (if 2 in forced then StatOf(d, 2) else 0)
  }

  /** Make sure that at least two codes have a non-zero frequency. */
  method ForceTwo(w: Work, d: TreeDesc, maxCode0: int, ghost leaves0: set<int>)
    returns (maxCode: int, ghost leaves: set<int>, ghost forced: set<int>)
    requires Apart(w, d) && leaves0 == NonZero(d.fc[..d.elems])
    requires Lists(w.heap[..], w.heapLen, leaves0) && w.heapLen <= d.elems
    requires -1 <= maxCode0 < d.elems && (forall n :: n in leaves0 ==> 0 <= n <= maxCode0)
    requires maxCode0 >= 0 ==> maxCode0 in leaves0
    modifies w`heapLen, w`optLen, w`staticLen, w.heap, w.depth, d.fc, d`maxCode
    ensures leaves == NonZero(d.fc[..d.elems]) && 2 <= w.heapLen <= d.elems
    ensures Lists(w.heap[..], w.heapLen, leaves)
    ensures Forced(old(d.fc[..d.elems]), d.fc[..d.elems], forced) && leaves == leaves0 + forced
    ensures forced != {} ==> w.heapLen == 2
    ensures d.maxCode == maxCode && 1 <= maxCode < d.elems && maxCode in leaves &&
      (forall n :: n in leaves ==> 0 <= n <= maxCode)
    ensures w.optLen == old(w.optLen) - |forced| && w.staticLen == old(w.staticLen) - StatSum(d, forced)
    ensures maxCode0 >= 2 ==> maxCode == maxCode0
  {
    hide Lists, Forced, StatSum, NonZero;
    ghost var f0: seq<nat> := d.fc[..d.elems];
    maxCode, leaves, forced := maxCode0, leaves0, {};
    NoneForced(d, f0);
    HeapLenSmall(w.heap[..], w.heapLen, leaves);
    while w.heapLen < 2
      invariant w.heapLen <= d.elems && Lists(w.heap[..], w.heapLen, leaves)
      invariant leaves == NonZero(d.fc[..d.elems]) == leaves0 + forced
      invariant Forced(old(d.fc[..d.elems]), d.fc[..d.elems], forced)
      invariant forced != {} ==> w.heapLen <= 2
      invariant -1 <= maxCode < d.elems && (forall n :: n in leaves ==> 0 <= n <= maxCode)
      invariant maxCode >= 0 ==> maxCode in leaves
      invariant w.optLen == old(w.optLen) - |forced| && w.staticLen == old(w.staticLen) - StatSum(d, forced)
      invariant maxCode0 >= 2 ==> maxCode == maxCode0
      decreases 2 - w.heapLen
    {
      ghost var f: seq<nat>, h: seq<int> := d.fc[..d.elems], w.heap[..];
      FreshLeaf(h, w.heapLen, leaves, maxCode);
      var new_: nat := 0;
      if maxCode < 2 { maxCode := maxCode + 1; new_ := maxCode; }
      ForcedStep(d, f0, f, h, w.heapLen, leaves, forced, new_);
      w.heapLen := w.heapLen + 1;
      w.heap[w.heapLen] := new_;
      d.fc[new_] := 1;
      w.depth[new_] := 0;
      w.optLen := w.optLen - 1;
      if d.stat.Some? { w.staticLen := w.staticLen - d.stat.value[new_]; }
      assert d.fc[..d.elems] == f[new_ := 1];
      forced := forced + {new_};
      leaves := leaves + {new_};
    }
    TwoLeaves(w.heap[..], w.heapLen, leaves, maxCode);
    d.maxCode := maxCode;
  }

  lemma NoneForced(d: TreeDesc, f: seq<nat>)
    requires d.Valid()
    ensures Forced(f, f, {}) && StatSum(d, {}) == 0
  {
  }

  lemma HeapLenSmall(h: seq<int>, len: nat, leaves: set<int>)
    requires Lists(h, len, leaves)
    ensures len < |h|
  {
  }

  lemma ForcedStep(d: TreeDesc, f0: seq<nat>, f: seq<nat>, h: seq<int>, len: nat, leaves: set<int>, forced: set<int>,
                   n: int)
    requires d.Valid() && |f| == d.elems && Forced(f0, f, forced) && leaves == NonZero(f) && 0 <= n < 3 && n !in leaves
    requires Lists(h, len, leaves) && len + 1 < |h|
    ensures Forced(f0, f[n := 1], forced + {n}) && NonZero(f[n := 1]) == leaves + {n} && |forced + {n}| == |forced| + 1
    ensures Lists(h[len + 1 := n], len + 1, leaves + {n})
    ensures StatSum(d, forced + {n}) == StatSum(d, forced) + StatOf(d, n)
  {
    hide Lists;
    ListsPush(h, len, leaves, n);
    assert f[n] == 0 && n !in forced;
    MoreNonZero(f, n);
  }

  lemma MoreNonZero(f: seq<nat>, n: nat)
    requires n < |f|
    ensures NonZero(f[n := 1]) == NonZero(f) + {n}
  {
  }

  lemma FreshLeaf(h: seq<int>, len: nat, leaves: set<int>, maxCode: int)
    requires Lists(h, len, leaves) && len < 2 && (forall x :: x in leaves ==> 0 <= x <= maxCode)
    requires maxCode >= 0 ==> maxCode in leaves
    ensures (if maxCode < 2 then maxCode + 1 else 0) !in leaves
  {
    if maxCode >= 2 && 0 in leaves {
      ListsAll(h, len, leaves, maxCode);
      ListsAll(h, len, leaves, 0);
    }
  }

  lemma TwoLeaves(h: seq<int>, len: nat, leaves: set<int>, maxCode: int)
    requires Lists(h, len, leaves) && len >= 2 && (forall x :: x in leaves ==> 0 <= x <= maxCode)
    ensures maxCode >= 1
  {
    assert h[1] != h[2] && h[1] in leaves && h[2] in leaves;
  }

  ghost function KeysOf(w: Work, d: TreeDesc): (k: seq<int>)
    requires Apart(w, d)
    reads d.fc, w.depth
    ensures |k| == d.fc.Length
  {
    Keys(d.fc[..], w.depth[..d.fc.Length])
  }

  lemma ListedAreNodes(h: seq<int>, len: nat, leaves: set<int>, e: nat, keys: seq<int>)
    requires Lists(h, len, leaves) && (forall n :: n in leaves ==> 0 <= n < e) && e <= |keys|
    ensures Nodes(h, len, keys) && IsHeap(h, len, keys, len / 2 + 1)
  {
  }

  /** Establish the heap order bottom up. */
  method Heapify(w: Work, d: TreeDesc, ghost leaves: set<int>)
    requires Apart(w, d) && Lists(w.heap[..], w.heapLen, leaves) && w.heapLen >= 1
    requires forall n :: n in leaves ==> 0 <= n < d.elems
    modifies w.heap
    ensures Lists(w.heap[..], w.heapLen, leaves) && Nodes(w.heap[..], w.heapLen, KeysOf(w, d))
    ensures IsHeap(w.heap[..], w.heapLen, KeysOf(w, d), 1)
  {
    hide Lists, IsHeap, Nodes, Keys;
    HeapLenSmall(w.heap[..], w.heapLen, leaves);
    ListedAreNodes(w.heap[..], w.heapLen, leaves, d.elems, KeysOf(w, d));
    var n := w.heapLen / 2;
    while n >= 1
      invariant 0 <= n <= w.heapLen / 2
      invariant Lists(w.heap[..], w.heapLen, leaves) && Nodes(w.heap[..], w.heapLen, KeysOf(w, d))
      invariant IsHeap(w.heap[..], w.heapLen, KeysOf(w, d), n + 1)
    {
      PqDownHeap(w.heap, w.heapLen, d.fc, w.depth, n, leaves);
      n := n - 1;
    }
  }

  /** The state of the main loop. */
  ghost predicate Growth(w: Work, d: TreeDesc, leaves: set<int>, hist: seq<Pair>, weight: int)
    requires Apart(w, d)
    reads w`heapLen, w`heapMax, w.heap, w.depth, d.fc, d.dl
  {
    Growing(d.fc[..], d.dl[..], d.elems, leaves, hist, weight) &&
    w.heapLen + |hist| == |leaves| && Pairs(w.heap[..], w.heapMax, hist) &&
    Lists(w.heap[..], w.heapLen, Front(leaves, d.elems, hist, |hist|)) &&
    Nodes(w.heap[..], w.heapLen, KeysOf(w, d)) && IsHeap(w.heap[..], w.heapLen, KeysOf(w, d), 1)
  }

  lemma GrowthFacts(w: Work, d: TreeDesc, leaves: set<int>, hist: seq<Pair>, weight: int)
    requires Apart(w, d) && Growth(w, d, leaves, hist, weight)
    ensures w.heapLen < w.heapMax <= HEAP_SIZE && w.heapMax + 2 * |hist| == HEAP_SIZE &&
      w.heapLen + |hist| == |leaves| <= d.elems
    ensures w.heapLen >= 2 ==> w.heapLen + 1 < w.heapMax - 1
    ensures Growing(d.fc[..], d.dl[..], d.elems, leaves, hist, weight) && Pairs(w.heap[..], w.heapMax, hist)
    ensures Lists(w.heap[..], w.heapLen, Front(leaves, d.elems, hist, |hist|))
    ensures Nodes(w.heap[..], w.heapLen, KeysOf(w, d)) && IsHeap(w.heap[..], w.heapLen, KeysOf(w, d), 1)
    ensures forall i :: 1 <= i <= w.heapLen ==> 0 <= w.heap[i] < d.fc.Length
  {
  }

  /** PQREMOVE: take the smallest element out of the queue. */
  method Remove(w: Work, d: TreeDesc, ghost s: set<int>) returns (n: ush)
    requires Apart(w, d) && 2 <= w.heapLen < HEAP_SIZE && Lists(w.heap[..], w.heapLen, s)
    requires Nodes(w.heap[..], w.heapLen, KeysOf(w, d)) && IsHeap(w.heap[..], w.heapLen, KeysOf(w, d), 1)
    modifies w`heapLen, w.heap
    ensures w.heapLen == old(w.heapLen) - 1 && n == old(w.heap[1])
    ensures Lists(w.heap[..], w.heapLen, s - {n as int})
    ensures Nodes(w.heap[..], w.heapLen, KeysOf(w, d)) && IsHeap(w.heap[..], w.heapLen, KeysOf(w, d), 1)
    ensures forall i :: w.heapLen < i < HEAP_SIZE && i != old(w.heapLen) ==> w.heap[i] == old(w.heap[i])
  {
    hide Lists, IsHeap, Nodes, Keys;
    ghost var h: seq<int> := w.heap[..];
    RemoveTop(h, w.heapLen, KeysOf(w, d), s);
    n := w.heap[1];
    w.heap[1] := w.heap[w.heapLen];
    w.heapLen := w.heapLen - 1;
    assert w.heap[..] == h[1 := h[w.heapLen + 1]];
    PqDownHeap(w.heap, w.heapLen, d.fc, w.depth, 1, s - {n as int});
  }

  /** Put a new node in place of the first element of the queue. */
  method Replace(w: Work, d: TreeDesc, node: ush, ghost s: set<int>, ghost keys: seq<int>)
    requires Apart(w, d) && 1 <= w.heapLen < HEAP_SIZE && Lists(w.heap[..], w.heapLen, s) && node < d.fc.Length
    requires Nodes(w.heap[..], w.heapLen, keys) && IsHeap(w.heap[..], w.heapLen, keys, 1) && node !in s
    requires |keys| == d.fc.Length && forall x :: 0 <= x < |keys| && x != node ==> KeysOf(w, d)[x] == keys[x]
    modifies w.heap
    ensures Lists(w.heap[..], w.heapLen, s - {old(w.heap[1]) as int} + {node as int})
    ensures Nodes(w.heap[..], w.heapLen, KeysOf(w, d)) && IsHeap(w.heap[..], w.heapLen, KeysOf(w, d), 1)
    ensures forall i :: w.heapLen < i < HEAP_SIZE ==> w.heap[i] == old(w.heap[i])
  {
    hide Lists, IsHeap, Nodes, Keys;
    ghost var h: seq<int> := w.heap[..];
    ReplaceTop(h, w.heapLen, keys, KeysOf(w, d), s, node);
    w.heap[1] := node;
    assert w.heap[..] == h[1 := node as int];
    PqDownHeap(w.heap, w.heapLen, d.fc, w.depth, 1, s - {h[1]} + {node as int});
  }

  /** Keep the two nodes sorted by frequency and create their father. */
  method Store(w: Work, d: TreeDesc, n: ush, m: ush, node: ush)
    requires Apart(w, d) && 2 <= w.heapMax <= HEAP_SIZE && n < node && m < node && n != m && node < d.fc.Length
    requires d.fc[n] as int + d.fc[m] as int < 0x10000
    modifies w`heapMax, w.heap, w.depth, d.fc, d.dl
    ensures w.heapMax == old(w.heapMax) - 2
    ensures w.heap[..] == old(w.heap[..])[w.heapMax + 1 := n][w.heapMax := m]
    ensures d.fc[..] == old(d.fc[..])[node as int := old(d.fc[n] + d.fc[m])]
    ensures d.dl[..] == old(d.dl[..])[n as int := node][m as int := node]
    ensures forall x :: 0 <= x < d.fc.Length && x != node ==> w.depth[x] == old(w.depth[x])
  {
    w.heapMax := w.heapMax - 1;
    w.heap[w.heapMax] := n;
    w.heapMax := w.heapMax - 1;
    w.heap[w.heapMax] := m;
    d.fc[node] := d.fc[n] + d.fc[m];
    var deeper: nat := if w.depth[n] >= w.depth[m] then w.depth[n] else w.depth[m];
    w.depth[node] := (deeper + 1) % 256;
    d.dl[n], d.dl[m] := node, node;
  }

  /** One turn of the main loop: join the two lightest roots. */
  method JoinTwo(w: Work, d: TreeDesc, node: ush, ghost leaves: set<int>, ghost hist: seq<Pair>, ghost weight: nat)
    returns (ghost hist': seq<Pair>)
    requires Apart(w, d) && Growth(w, d, leaves, hist, weight) && w.heapLen >= 2 && weight < 0x10000
    requires node == d.elems + |hist|
    modifies w`heapLen, w`heapMax, w.heap, w.depth, d.fc, d.dl
    ensures Growth(w, d, leaves, hist', weight) && |hist'| == |hist| + 1 && w.heapLen == old(w.heapLen) - 1
    ensures forall n :: 0 <= n < d.elems ==> d.fc[n] == old(d.fc[n]) && (n !in leaves ==> d.dl[n] == old(d.dl[n]))
  {
    hide Growing, Lists, IsHeap, Nodes, Keys, Pairs, IsHistory, Front, Lightest;
    GrowthFacts(w, d, leaves, hist, weight);
    ghost var e, s := d.elems, Front(leaves, d.elems, hist, |hist|);
    ghost var h: seq<int>, len := w.heap[..], w.heapLen;
    ghost var freq: seq<nat>, cell: seq<int> := d.fc[..], d.dl[..];
    var n := Remove(w, d, s);
    var m := w.heap[1];
    TopIsLightest(h, len, w.heap[..], freq, w.depth[..d.fc.Length], s);
    Grow(freq, cell, e, leaves, hist, weight, n, m);
    LeavesOnly(leaves, e, hist, n);
    LeavesOnly(leaves, e, hist, m);
    ghost var h1: seq<int>, keys := w.heap[..], KeysOf(w, d);
    hist' := hist + [(n as int, m as int)];
    Store(w, d, n, m, node);
    StoredPair(h, h1, len, w.heapMax + 2, hist, n, m, s - {n as int}, keys);
    KeysElsewhere(freq, d.fc[..], old(w.depth[..d.fc.Length]), w.depth[..d.fc.Length], node);
    Replace(w, d, node, s - {n as int}, keys);
    assert s - {n as int} - {m as int} + {node as int} == Front(leaves, e, hist', |hist'|);
    KeepPairs(h1[w.heapMax + 1 := n as int][w.heapMax := m as int], w.heap[..], w.heapMax, hist');
  }

  lemma LeavesOnly(leaves: set<int>, e: nat, hist: seq<Pair>, x: int)
    requires IsHistory(leaves, e, hist) && x in Front(leaves, e, hist, |hist|)
    ensures x in leaves || x >= e
  {
    FrontKinds(leaves, e, hist, |hist|);
  }

  lemma KeysElsewhere(freq: seq<nat>, freq': seq<nat>, depth: seq<byte>, depth': seq<byte>, c: int)
    requires |freq| == |freq'| <= |depth| == |depth'| && 0 <= c < |freq|
    requires forall x :: 0 <= x < |freq| && x != c ==> freq[x] == freq'[x] && depth[x] == depth'[x]
    ensures forall x :: 0 <= x < |freq| && x != c ==> Keys(freq', depth')[x] == Keys(freq, depth)[x]
  {
  }

  lemma StoredPair(h: seq<int>, h1: seq<int>, len: nat, heapMax: nat, hist: seq<Pair>, n: int, m: int, s: set<int>,
                   keys: seq<int>)
    requires Pairs(h, heapMax, hist) && |h1| == |h| && 2 <= len && len + 1 < heapMax - 1
    requires forall i :: len <= i < HEAP_SIZE && i != len ==> h1[i] == h[i]
    requires Lists(h1, len - 1, s) && Nodes(h1, len - 1, keys) && IsHeap(h1, len - 1, keys, 1)
    ensures var h2 := h1[heapMax - 1 := n][heapMax - 2 := m];
            Pairs(h2, heapMax - 2, hist + [(n, m)]) && h2[1] == h1[1] &&
            Lists(h2, len - 1, s) && Nodes(h2, len - 1, keys) && IsHeap(h2, len - 1, keys, 1)
  {
    hide InOrder;
    KeepPairs(h, h1, heapMax, hist);
    PairsExtend(h1, heapMax, hist, n, m);
    HeapSame(h1, h1[heapMax - 1 := n][heapMax - 2 := m], len - 1, keys);
  }

  lemma KeepPairs(h: seq<int>, h': seq<int>, heapMax: nat, hist: seq<Pair>)
    requires Pairs(h, heapMax, hist) && |h'| == |h| && forall i :: heapMax <= i < HEAP_SIZE ==> h'[i] == h[i]
    ensures Pairs(h', heapMax, hist)
  {
  }

  lemma HeapSame(h: seq<int>, h': seq<int>, len: nat, keys: seq<int>)
    requires Nodes(h, len, keys) && IsHeap(h, len, keys, 1) && |h'| == |h| &&
      forall i :: 1 <= i <= len ==> h'[i] == h[i]
    ensures Nodes(h', len, keys) && IsHeap(h', len, keys, 1)
  {
    forall p | 1 <= p ensures InOrder(h', len, keys, p) { assert InOrder(h, len, keys, p); }
  }

  /** Join roots until one is left; list it first. */
  method Combine(w: Work, d: TreeDesc, ghost leaves: set<int>, ghost weight: nat) returns (ghost hist: seq<Pair>)
    requires Apart(w, d) && Growth(w, d, leaves, [], weight) && |leaves| >= 2 && weight < 0x10000
    requires 0 <= d.maxCode < d.elems && (forall n :: n in leaves ==> n <= d.maxCode)
    requires forall n :: 0 <= n < d.elems ==> (n in leaves <==> d.fc[n] != 0) && (n !in leaves ==> d.dl[n] == 0)
    modifies w`heapLen, w`heapMax, w.heap, w.depth, d.fc, d.dl
    ensures forall n :: 0 <= n < d.elems ==> d.fc[n] == old(d.fc[n])
    ensures FirstPass.Built(w.heap[..], w.heapMax, d.fc[..d.elems], d.dl[..], d.elems, d.maxCode, leaves, hist)
    ensures AddsUp(d.elems, hist, d.fc[..]) && Greedy(leaves, d.elems, hist, d.fc[..])
  {
    hide Growing, Lists, IsHeap, Nodes, Keys, Pairs, IsHistory, Front, Growth, FirstPass.Built, AddsUp, Greedy;
    hist := [];
    GrowthFacts(w, d, leaves, hist, weight);
    var node := d.elems;
    while true
      invariant Growth(w, d, leaves, hist, weight) && w.heapLen >= 2 && node == d.elems + |hist| < 0x10000
      invariant forall n :: 0 <= n < d.elems ==> d.fc[n] == old(d.fc[n]) && (n !in leaves ==> d.dl[n] == old(d.dl[n]))
      decreases w.heapLen
    {
      GrowthFacts(w, d, leaves, hist, weight);
      hist := JoinTwo(w, d, node, leaves, hist, weight);
      GrowthFacts(w, d, leaves, hist, weight);
      node := node + 1;
      if w.heapLen < 2 { break; }
    }
    ghost var h: seq<int> := w.heap[..];
    w.heapMax := w.heapMax - 1;
    w.heap[w.heapMax] := w.heap[1];
    assert w.heap[..] == h[w.heapMax := h[1]];
    Combined(h, w.heapMax + 1, d.fc[..], d.dl[..], d.elems, d.maxCode, leaves, hist, weight);
    assert d.fc[..][..d.elems] == d.fc[..d.elems];
  }

  lemma Combined(h: seq<int>, heapMax: nat, freq: seq<nat>, cell: seq<int>, e: nat, maxCode: nat,
                 leaves: set<int>, hist: seq<Pair>, weight: int)
    requires Growing(freq, cell, e, leaves, hist, weight) && Pairs(h, heapMax, hist) && heapMax > 0
    requires |hist| + 1 == |leaves| && |hist| > 0 && Lists(h, 1, Front(leaves, e, hist, |hist|)) && maxCode < e
    requires forall n :: 0 <= n < e ==> (n in leaves <==> freq[n] != 0) && (n !in leaves ==> cell[n] == 0)
    requires forall n :: n in leaves ==> n <= maxCode
    ensures FirstPass.Built(h[heapMax - 1 := h[1]], heapMax - 1, freq[..e], cell, e, maxCode, leaves, hist)
    ensures AddsUp(e, hist, freq) && Greedy(leaves, e, hist, freq)
  {
    hide Growing, SetSum, Greedy, AddsUp, Dads, Front, IsHistory, Pairs, Layout, Lists;
    GrowingFacts(freq, cell, e, leaves, hist, weight);
    Step(leaves, e, hist, |hist| - 1);
    SingleRoot(h, Front(leaves, e, hist, |hist|), e + |hist| - 1);
    RootFirst(h, heapMax, e, hist);
  }

  lemma RootFirst(h: seq<int>, heapMax: nat, e: nat, hist: seq<Pair>)
    requires Pairs(h, heapMax, hist) && heapMax > 0 && |hist| > 0 && h[1] == e + |hist| - 1
    ensures heapMax <= |h| == HEAP_SIZE && Layout(h[heapMax - 1 := h[1]], heapMax - 1, e, hist)
  {
  }

  lemma GrowingFacts(freq: seq<int>, cell: seq<int>, e: nat, leaves: set<int>, hist: seq<Pair>, weight: int)
    requires Growing(freq, cell, e, leaves, hist, weight)
    ensures |freq| == |cell| == 2 * e + 1 && |hist| < |leaves| <= e <= L_CODES
    ensures IsHistory(leaves, e, hist) && AddsUp(e, hist, freq) && Greedy(leaves, e, hist, freq) && Dads(cell, e, hist)
  {
  }

  lemma SingleRoot(h: seq<int>, s: set<int>, r: int)
    requires Lists(h, 1, s) && r in s
    ensures h[1] == r && s == {r}
  {
    ListsAll(h, 1, s, r);
    forall z | z in s ensures z == r { ListsAll(h, 1, s, z); }
  }

  // ---- optimality, stated over code lengths ----

  /** Frequency times length, summed. */
  ghost function WeightedLength(freq: seq<nat>, lens: seq<nat>, n: nat): (c: int)
    requires n <= |freq| && n <= |lens|
  {
    if n == 0 then 0 else WeightedLength(freq, lens, n - 1) + Times(freq[n - 1], lens[n - 1])
  }

  /** Lengths that give every symbol in use a code and respect the Kraft inequality. */
  ghost predicate Competes(freq: seq<nat>, alt: seq<nat>, max: nat)
  {
    |alt| == |freq| && Bounded(alt, max) && Kraft(alt, max, |alt|) <= Pow2(max) &&
    forall n :: 0 <= n < |freq| && freq[n] != 0 ==> alt[n] > 0
  }

  /** No competing lengths, of whatever maximum, make the symbols take fewer bits. */
  ghost predicate Cheapest(freq: seq<nat>, lens: seq<nat>)
  {
    |lens| == |freq| &&
    forall alt, max :: Competes(freq, alt, max) ==>
      WeightedLength(freq, lens, |freq|) <= WeightedLength(freq, alt, |freq|)
  }

  lemma {:induction false} LeafSpaceWithin(leaves: set<int>, alt: seq<nat>, ext: seq<int>, max: nat, n: nat)
    requires n <= |ext| && |alt| <= |ext| && Bounded(alt, max) && (forall i :: 0 <= i < |alt| ==> ext[i] == alt[i])
    requires forall z :: z in leaves ==> 0 <= z < |alt| && alt[z] > 0
    ensures SetSumTo(leaves, Spaces(ext, max), n) <= Kraft(alt, max, if n <= |alt| then n else |alt|)
  {
    hide Spaces;
    if n > 0 { LeafSpaceWithin(leaves, alt, ext, max, n - 1); }
  }

  lemma {:induction false} LeafCostIs(leaves: set<int>, freq: seq<nat>, lens: seq<nat>, freqN: seq<int>, ext: seq<int>,
                                      n: nat)
    requires n <= |ext| == |freqN| && |lens| == |freq| <= |ext|
    requires forall i :: 0 <= i < |lens| ==> ext[i] == lens[i] && freqN[i] == freq[i] && (freq[i] != 0 <==> i in leaves)
    requires forall z :: z in leaves ==> 0 <= z < |lens|
    ensures SetSumTo(leaves, Products(freqN, ext), n) == WeightedLength(freq, lens, if n <= |lens| then n else |lens|)
  {
    hide Products, Times;
    if n > 0 {
      LeafCostIs(leaves, freq, lens, freqN, ext, n - 1);
      if n - 1 < |lens| && n - 1 !in leaves { ZeroTimes(lens[n - 1]); }
    }
  }

  lemma ZeroTimes(a: int)
    ensures Times(0, a) == 0
  {
  }

  /** When nothing was clipped, no competing lengths cost less. */
  lemma TreeIsOptimal(leaves: set<int>, e: nat, hist: seq<Pair>, freqN: seq<nat>, cell: seq<int>, max: nat,
                      lens: seq<nat>, alt: seq<nat>, altMax: nat)
    requires IsTree(leaves, e, hist) && AddsUp(e, hist, freqN) && Greedy(leaves, e, hist, freqN)
    requires |freqN| == |cell| && e <= |cell| && lens == cell[..e] && IsClippedDepth(e, hist, cell, max)
    requires Clipped(e, |hist|, cell, max, 0) == 0
    requires forall n :: 0 <= n < e ==> (n in leaves <==> freqN[n] != 0)
    requires Competes(freqN[..e], alt, altMax)
    ensures WeightedLength(freqN[..e], lens, e) <= WeightedLength(freqN[..e], alt, e)
  {
    hide IsTree, AddsUp, Greedy, IsClippedDepth, Clipped, Front, Created, SetSumTo, Products, Spaces, Kraft, Pow2,
      WeightedLength;
    var ext: seq<int> := alt + seq(|cell| - e, _ => 0);
    LengthLimit.TreeFacts(leaves, e, hist);
    LeafSpaceWithin(leaves, alt, ext, altMax, |ext|);
    assert Feasible(leaves, ext, altMax);
    FrontZero(leaves, e, hist);
    LowerBound(leaves, e, hist, freqN, ext, altMax, 0);
    UnclippedCost(leaves, e, hist, cell, max, freqN, 0);
    LeafCostIs(leaves, freqN[..e], alt, freqN, ext, |ext|);
    LeafCostIs(leaves, freqN[..e], lens, freqN, cell, |cell|);
  }

  lemma FrontZero(leaves: set<int>, e: nat, hist: seq<Pair>)
    ensures Front(leaves, e, hist, 0) == leaves
  {
  }

  // ---- lengths and codes ----

  /** What gen_bitlen achieves: lens gives every symbol of freq a length of at most max, fills the
      code space exactly, and blCount counts the lengths. */
  ghost predicate FullTree(freq: seq<nat>, lens: seq<nat>, max: nat)
  {
    |lens| == |freq| && Bounded(lens, max) && Kraft(lens, max, |lens|) == Pow2(max) &&
    forall n :: 0 <= n < |freq| ==> (lens[n] > 0 <==> freq[n] != 0)
  }

  lemma FirstPassFull(cell: seq<int>, e: nat, max: nat, leaves: set<int>, hist: seq<Pair>, bl: seq<nat>, freq: seq<nat>)
    requires LengthLimit.InUse(cell, e, max, leaves) && 0 < max <= MAX_BITS && e <= Pow2(max) && |freq| == e
    requires IsTree(leaves, e, hist) && IsClippedDepth(e, hist, cell, max) && Clipped(e, |hist|, cell, max, 0) == 0
    requires GenCodes.Tallies(bl, cell[..e])
    requires forall n :: 0 <= n < e ==> (n in leaves <==> freq[n] != 0)
    ensures FullTree(freq, cell[..e], max)
  {
    hide LengthLimit.KraftOf, FirstPass.Total, Kraft, Pow2, IsTree, IsClippedDepth, Clipped;
    LengthLimit.InitialExcess(cell, e, max, leaves, hist, bl, cell[..e]);
  }

  /** After the repair, lengths realising the repaired counts fill the code space. */
  lemma RepairedFull(bl: seq<nat>, lens: seq<nat>, max: nat, freq: seq<nat>)
    requires LengthLimit.Overfull(bl, max, 0) && GenCodes.Tallies(bl, lens) && |freq| == |lens|
    requires forall b :: max < b <= MAX_BITS ==> bl[b] == 0
    requires forall n :: 0 <= n < |lens| ==> lens[n] <= MAX_BITS && (lens[n] > 0 <==> freq[n] != 0)
    ensures FullTree(freq, lens, max)
  {
    hide Kraft, Pow2, Horner, LengthLimit.KraftOf;
    forall n | 0 <= n < |lens| ensures lens[n] <= max {
      if lens[n] > max {
        assert bl[lens[n]] == Used(lens, lens[n]);
        AtLeastOne(lens, n, |lens|);
      }
    }
    LengthLimit.KraftOfIsHorner(bl, lens, max);
    KraftIsHorner(lens, max, |lens|);
  }

  lemma AtLeastOne(lens: seq<nat>, k: nat, n: nat)
    requires k < n <= |lens|
    ensures Count(lens, lens[k], n) >= 1
  {
    CountMono(lens, lens[k], k, n);
  }

  method GenBitlen(w: Work, d: TreeDesc, ghost leaves: set<int>, ghost hist: seq<Pair>)
    requires Apart(w, d) && 0 <= d.maxCode
    requires FirstPass.Built(w.heap[..], w.heapMax, d.fc[..d.elems], d.dl[..], d.elems, d.maxCode, leaves, hist)
    requires AddsUp(d.elems, hist, d.fc[..]) && Greedy(leaves, d.elems, hist, d.fc[..])
    modifies w`optLen, w`staticLen, w.blCount, d.dl
    ensures FullTree(d.fc[..d.elems], d.dl[..d.elems], d.maxLength)
    ensures GenCodes.Tallies(w.blCount[..], d.dl[..d.elems])
    ensures w.optLen == old(w.optLen) + BitCost(d.fc[..d.elems], d.dl[..d.elems], d.dl[..d.elems], d.Extras(), d.elems)
    ensures d.stat.Some? ==>
      w.staticLen == old(w.staticLen) + BitCost(d.fc[..d.elems], d.dl[..d.elems], d.stat.value, d.Extras(), d.elems)
    ensures d.stat.None? ==> w.staticLen == old(w.staticLen)
    ensures Shallow(leaves, d.elems, hist, d.maxLength) ==> Cheapest(d.fc[..d.elems], d.dl[..d.elems])
    ensures LengthLimit.NoneShorter(leaves, d.fc[..d.elems], d.dl[..d.elems])
  {
    hide FirstPass.Built, AddsUp, Greedy, IsTree, IsClippedDepth, Clipped, Shallow, BitCost, Times, FullTree,
      WeightedLength, Kraft;
    hide FirstPass.Total, FirstPass.LeafCount, Layout, LengthLimit.Overfull, LengthLimit.InUse, LengthLimit.ByWeight,
      Used, Pow2;
    hide LengthLimit.NoneShorter;
    ghost var e, freq: seq<nat>, x := d.elems, d.fc[..d.elems], d.Extras();
    FirstPass.BuiltFacts(w.heap[..], w.heapMax, freq, d.dl[..], e, d.maxCode, leaves, hist);
    LengthLimit.TreeFacts(leaves, e, hist);
    LeavesAreUsed(w.heap[..], w.heapMax, freq, d.dl[..], e, d.maxCode, leaves, hist);
    var st := if d.stat.Some? then d.stat.value else seq(d.elems, _ => 0);
    var overflow, opt, stat := FirstPass.Run(w.heap, w.heapMax, d.fc, d.dl, w.blCount, d.elems, d.maxCode, d.maxLength,
                                             d.extra, d.extraBase, st, leaves, hist);
    w.optLen := w.optLen + opt;
    if d.stat.Some? { w.staticLen := w.staticLen + stat; }
    AfterFirstPass(d.dl[..], e, d.maxLength, leaves);
    assert d.dl[..][..e] == d.dl[..e] && d.fc[..][..e] == d.fc[..e];
    ClippedIffDeep(leaves, e, hist, d.dl[..], d.maxLength);
    if overflow == 0 {
      FirstPassFull(d.dl[..], e, d.maxLength, leaves, hist, w.blCount[..], freq);
      forall alt, max | Competes(freq, alt, max)
        ensures WeightedLength(freq, d.dl[..e], e) <= WeightedLength(freq, alt, e)
      {
        TreeIsOptimal(leaves, e, hist, d.fc[..], d.dl[..], d.maxLength, d.dl[..e], alt, max);
      }
      CheapestByWeight(leaves, freq, d.dl[..e], d.maxLength);
      return;
    }
    ghost var lens: seq<nat> := d.dl[..e];
    LengthLimit.InitialExcess(d.dl[..], e, d.maxLength, leaves, hist, w.blCount[..], lens);
    LengthLimit.ListedByWeight(leaves, e, hist, w.heap[..], w.heapMax, d.fc[..]);
    LengthLimit.Repair(w.blCount, d.maxLength, overflow);
    var fix := LengthLimit.HandOutLengths(w.heap, w.heapMax, d.fc, d.dl, w.blCount, d.elems, d.maxCode, d.maxLength, x,
      leaves, hist);
    w.optLen := w.optLen + fix;
    Repaired(w.blCount[..], d.dl[..e], d.maxLength, freq, leaves);
    SameUsers(freq, lens, d.dl[..e], st, x, e, leaves);
  }

  lemma {:induction false} KraftSet(lens: seq<nat>, max: nat, n: nat, k: nat, v: nat)
    requires n <= |lens| && k < |lens| && Bounded(lens, max) && v <= max
    ensures Bounded(lens[k := v], max) && Kraft(lens[k := v], max, n) ==
            Kraft(lens, max, n) + if k < n then Unit(v, max) - Unit(lens[k], max) else 0
  {
    hide Unit;
    if n > 0 { KraftSet(lens, max, n - 1, k, v); }
  }

  lemma {:induction false} WeightSet(freq: seq<nat>, lens: seq<nat>, n: nat, k: nat, v: nat)
    requires n <= |freq| == |lens| && k < |lens|
    ensures WeightedLength(freq, lens[k := v], n) ==
            WeightedLength(freq, lens, n) + if k < n then Times(freq[k], v) - Times(freq[k], lens[k]) else 0
  {
    hide Times;
    if n > 0 { WeightSet(freq, lens, n - 1, k, v); }
  }

  lemma SwapGains(fa: nat, fb: nat, la: nat, lb: nat)
    requires fa < fb && la < lb
    ensures Times(fa, lb) + Times(fb, la) < Times(fa, la) + Times(fb, lb)
  {
    assert (fb - fa) * (lb - la) == fb * lb - fb * la - fa * lb + fa * la;
    assert (fb - fa) * (lb - la) > 0;
  }

  /** Two lengths change places. */
  function Swapped(lens: seq<nat>, a: nat, b: nat): (r: seq<nat>)
    requires a < |lens| && b < |lens|
    ensures |r| == |lens|
  {
    lens[a := lens[b]][b := lens[a]]
  }

  lemma SwapCompetes(freq: seq<nat>, lens: seq<nat>, max: nat, a: nat, b: nat)
    requires FullTree(freq, lens, max) && a < |lens| && b < |lens| && a != b && freq[a] != 0 && freq[b] != 0
    ensures Competes(freq, Swapped(lens, a, b), max)
  {
    hide Kraft, Unit, Pow2;
    KraftSet(lens, max, |lens|, a, lens[b]);
    KraftSet(lens[a := lens[b]], max, |lens|, b, lens[a]);
  }

  /** Where no lengths cost less, a lighter symbol cannot have the shorter code: the two would change places. */
  lemma CheapestByWeight(leaves: set<int>, freq: seq<nat>, lens: seq<nat>, max: nat)
    requires FullTree(freq, lens, max) && Cheapest(freq, lens)
    requires forall n :: 0 <= n < |freq| ==> (n in leaves <==> freq[n] != 0)
    ensures LengthLimit.NoneShorter(leaves, freq, lens)
  {
    hide WeightedLength, FullTree, Times;
    FullTreeLength(freq, lens, max);
    forall a, b | a in leaves && b in leaves && 0 <= a < |freq| && 0 <= b < |freq| && freq[a] < freq[b]
      ensures lens[a] >= lens[b]
    {
      if lens[a] < lens[b] {
        SwapCompetes(freq, lens, max, a, b);
        WeightSet(freq, lens, |freq|, a, lens[b]);
        WeightSet(freq, lens[a := lens[b]], |freq|, b, lens[a]);
        SwapGains(freq[a], freq[b], lens[a], lens[b]);
      }
    }
  }

  /** Of fewer than two symbols none is lighter than another. */
  lemma FewByWeight(f: seq<nat>, lens: seq<nat>)
    requires |NonZero(f)| < 2 && |lens| == |f|
    ensures LengthLimit.NoneShorter(NonZero(f), f, lens)
  {
    forall a, b | a in NonZero(f) && b in NonZero(f) ensures a == b { OneMember(NonZero(f), a, b); }
  }

  lemma OneMember(s: set<int>, a: int, b: int)
    requires |s| < 2 && a in s && b in s
    ensures a == b
  {
    assert |s - {a}| == |s| - 1 == 0;
  }

  lemma LeavesAreUsed(heap: seq<int>, hm: nat, freq: seq<nat>, cell: seq<int>, e: nat, maxCode: nat,
                      leaves: set<int>, hist: seq<Pair>)
    requires FirstPass.Built(heap, hm, freq, cell, e, maxCode, leaves, hist)
    ensures |freq| == e && forall n :: 0 <= n < e ==> (n in leaves <==> freq[n] != 0)
  {
  }

  lemma AfterFirstPass(cell: seq<int>, e: nat, max: nat, leaves: set<int>)
    requires e <= |cell| && (forall n :: n in leaves ==> 0 <= n < e)
    requires forall n :: 0 <= n < e ==> 0 <= cell[n] <= max && (cell[n] > 0 <==> n in leaves)
    ensures LengthLimit.InUse(cell, e, max, leaves)
  {
  }

  lemma Repaired(bl: seq<nat>, lens: seq<nat>, max: nat, freq: seq<nat>, leaves: set<int>)
    requires LengthLimit.Overfull(bl, max, 0) && |freq| == |lens| && |bl| == MAX_BITS + 1
    requires forall b :: 1 <= b <= MAX_BITS ==> Used(lens, b) == bl[b]
    requires forall b :: max < b <= MAX_BITS ==> bl[b] == 0
    requires forall n :: 0 <= n < |lens| ==>
      lens[n] <= MAX_BITS && (lens[n] > 0 <==> n in leaves) && (n in leaves <==> freq[n] != 0)
    ensures FullTree(freq, lens, max) && GenCodes.Tallies(bl, lens)
  {
    hide FullTree;
    assert bl[0] == 0 == Used(lens, 0);
    RepairedFull(bl, lens, max, freq);
  }

  lemma SameUsers(freq: seq<nat>, lens: seq<nat>, lens': seq<nat>, st: seq<nat>, x: seq<nat>, e: nat, leaves: set<int>)
    requires |freq| == |lens| == |lens'| == |x| == e <= |st|
    requires forall n :: 0 <= n < e ==> (lens[n] > 0 <==> n in leaves) && (lens'[n] > 0 <==> n in leaves)
    ensures BitCost(freq, lens, st, x, e) == BitCost(freq, lens', st, x, e)
  {
    hide BitCost, Times;
    CostSame(freq, freq, lens, lens', st, st, x, x, e);
  }

  // ---- forced codes do not count ----

  /** What the forced symbols contribute, one occurrence each. */
  ghost function ForcedBits(forced: set<int>, lens: seq<nat>, x: seq<nat>): (c: nat)
    requires |lens| >= 3 && |x| >= 3
  {
    (if 0 in forced then lens[0] + x[0] else 0) + (if 1 in forced then lens[1] + x[1] else 0) +
    (if 2 in forced then lens[2] + x[2] else 0)
  }

  lemma CostForced(f: seq<nat>, f': seq<nat>, forced: set<int>, used: seq<nat>, lens: seq<nat>, x: seq<nat>, e: nat)
    requires Forced(f, f', forced) && 3 <= e == |f| == |used| == |x| <= |lens|
    requires forall n :: n in forced ==> used[n] != 0
    ensures BitCost(f', used, lens, x, e) == BitCost(f, used, lens, x, e) + ForcedBits(forced, lens, x)
  {
    hide BitCost, ForcedBits;
    var f1 := OneMore(f, forced, 0);
    var f2 := OneMore(f1, forced, 1);
    var f3 := OneMore(f2, forced, 2);
    CostOneMore(f, forced, used, lens, x, e, 0);
    CostOneMore(f1, forced, used, lens, x, e, 1);
    CostOneMore(f2, forced, used, lens, x, e, 2);
    AllForced(f, f', forced);
    ForcedBitsAre(forced, lens, x);
  }

  ghost function OneMore(f: seq<nat>, forced: set<int>, k: nat): (f': seq<nat>)
    requires k < |f|
    ensures |f'| == |f|
  {
    if k in forced then f[k := f[k] + 1] else f
  }

  lemma AllForced(f: seq<nat>, f': seq<nat>, forced: set<int>)
    requires Forced(f, f', forced) && |f| >= 3
    ensures OneMore(OneMore(OneMore(f, forced, 0), forced, 1), forced, 2) == f'
  {
  }

  lemma ForcedBitsAre(forced: set<int>, lens: seq<nat>, x: seq<nat>)
    requires |lens| >= 3 && |x| >= 3
    ensures ForcedBits(forced, lens, x) ==
            (if 0 in forced then lens[0] + x[0] else 0) + (if 1 in forced then lens[1] + x[1] else 0) +
            (if 2 in forced then lens[2] + x[2] else 0)
  {
  }

  lemma CostOneMore(f: seq<nat>, forced: set<int>, used: seq<nat>, lens: seq<nat>, x: seq<nat>, e: nat, k: nat)
    requires k < e == |f| == |used| == |x| <= |lens| && (k in forced ==> used[k] != 0)
    ensures BitCost(OneMore(f, forced, k), used, lens, x, e) == BitCost(f, used, lens, x, e) +
              if k in forced then lens[k] + x[k] else 0
  {
    hide BitCost;
    if k in forced { CostMore(f, used, lens, x, e, k); }
  }

  lemma {:induction false} KraftTwo(lens: seq<nat>, max: nat, n: nat, a: nat, b: nat)
    requires n <= |lens| && Bounded(lens, max) && a < b < |lens|
    requires forall i :: 0 <= i < |lens| && i != a && i != b ==> lens[i] == 0
    ensures Kraft(lens, max, n) == (if a < n then Unit(lens[a], max) else 0) + (if b < n then Unit(lens[b], max) else 0)
  {
    hide Unit;
    if n > 0 {
      KraftTwo(lens, max, n - 1, a, b);
      ZeroUnit(max);
    }
  }

  lemma ZeroUnit(max: nat)
    ensures Unit(0, max) == 0
  {
  }

  /** With only two symbols, both codes have one bit. */
  lemma TwoOnes(freq: seq<nat>, lens: seq<nat>, max: nat, a: nat, b: nat)
    requires FullTree(freq, lens, max) && a < b < |freq| && max > 0
    requires forall i :: 0 <= i < |freq| ==> (freq[i] != 0 <==> i == a || i == b)
    ensures lens[a] == 1 && lens[b] == 1
  {
    hide Kraft;
    KraftTwo(lens, max, |lens|, a, b);
    HalfSpace(max, lens[a]);
    HalfSpace(max, lens[b]);
  }

  lemma HalfSpace(max: nat, l: nat)
    requires 0 < l <= max
    ensures 2 * Pow2(max - l) <= Pow2(max) && (2 * Pow2(max - l) == Pow2(max) ==> l == 1)
  {
    Pow2Mono(max - l, max - 1);
    if l > 1 {
      Pow2Mono(max - l, max - 2);
      assert Pow2(max) == 2 * Pow2(max - 1) && Pow2(max - 1) == 2 * Pow2(max - 2);
    }
  }

  /** Forced symbols have one-bit codes and no extra bits. */
  lemma ForcedAreOnes(h: seq<int>, leaves: set<int>, forced: set<int>, f: seq<nat>, f': seq<nat>, lens: seq<nat>,
                      max: nat, x: seq<nat>, len: nat)
    requires Forced(f, f', forced) && FullTree(f', lens, max) && max > 0 && |x| == |f| >= 3
    requires leaves == NonZero(f') && Lists(h, len, leaves) && (forced != {} ==> len == 2)
    requires forall n :: 0 <= n < 3 ==> x[n] == 0
    ensures ForcedBits(forced, lens, x) == |forced|
    ensures forall n :: n in forced ==> lens[n] != 0
  {
    hide FullTree, Lists;
    FullTreeLength(f', lens, max);
    assert forced <= {0, 1, 2} by { assert forall n :: n in forced ==> n == 0 || n == 1 || n == 2; }
    if forced != {} {
      TwoListed(h, leaves);
      var a, b := if h[1] < h[2] then h[1] else h[2], if h[1] < h[2] then h[2] else h[1];
      assert forall i :: 0 <= i < |f'| ==> (f'[i] != 0 <==> i in leaves);
      assert a in leaves && b in leaves;
      TwoOnes(f', lens, max, a, b);
      assert forall n :: n in forced ==> n in leaves && lens[n] == 1;
    }
    SmallSet(forced);
  }

  lemma FullTreeLength(f: seq<nat>, lens: seq<nat>, max: nat)
    requires FullTree(f, lens, max)
    ensures |lens| == |f|
  {
  }

  lemma TwoListed(h: seq<int>, s: set<int>)
    requires Lists(h, 2, s)
    ensures |h| > 2 && h[1] != h[2] && s == {h[1], h[2]}
  {
    forall z | z in s ensures z == h[1] || z == h[2] { ListsAll(h, 2, s, z); }
  }

  lemma SmallSet(s: set<int>)
    requires s <= {0, 1, 2}
    ensures |s| == (if 0 in s then 1 else 0) + (if 1 in s then 1 else 0) + (if 2 in s then 1 else 0)
  {
    var s0 := if 0 in s then {0} else {};
    var s1 := if 1 in s then {1} else {};
    var s2 := if 2 in s then {2} else {};
    assert s == s0 + s1 + s2;
  }

  // ---- lengths cut off after the largest code ----

  lemma {:induction false} CountPrefix(lens: seq<nat>, m: nat, b: nat, n: nat)
    requires n <= m <= |lens|
    ensures Count(lens[..m], b, n) == Count(lens, b, n)
  {
    if n > 0 { CountPrefix(lens, m, b, n - 1); }
  }

  lemma {:induction false} CountZeros(lens: seq<nat>, m: nat, b: nat, n: nat)
    requires m <= n <= |lens| && b > 0 && forall i :: m <= i < |lens| ==> lens[i] == 0
    ensures Count(lens, b, n) == Count(lens, b, m)
  {
    if m < n { CountZeros(lens, m, b, n - 1); }
  }

  lemma TalliesPrefix(bl: seq<nat>, lens: seq<nat>, m: nat)
    requires GenCodes.Tallies(bl, lens) && m <= |lens| && forall i :: m <= i < |lens| ==> lens[i] == 0
    ensures GenCodes.Tallies(bl, lens[..m])
  {
    forall b | 1 <= b <= MAX_BITS ensures Count(lens[..m], b, m) == Count(lens, b, |lens|) {
      CountPrefix(lens, m, b, m);
      CountZeros(lens, m, b, |lens|);
    }
  }

  lemma {:induction false} KraftPrefix(lens: seq<nat>, m: nat, max: nat, n: nat)
    requires m <= |lens| && n <= |lens| && Bounded(lens, max) && forall i :: m <= i < |lens| ==> lens[i] == 0
    ensures Bounded(lens[..m], max) && Kraft(lens[..m], max, if n <= m then n else m) == Kraft(lens, max, n)
  {
    if n > 0 { KraftPrefix(lens, m, max, n - 1); }
  }

  lemma {:induction false} KraftScale(lens: seq<nat>, max: nat, n: nat)
    requires Bounded(lens, max) && n <= |lens|
    ensures Bounded(lens, max + 1) && Kraft(lens, max + 1, n) == 2 * Kraft(lens, max, n)
  {
    if n > 0 { KraftScale(lens, max, n - 1); }
  }

  lemma {:induction false} KraftScaleTo(lens: seq<nat>, max: nat, k: nat)
    requires Bounded(lens, max) && Kraft(lens, max, |lens|) == Pow2(max) && max <= k
    ensures Bounded(lens, k) && Kraft(lens, k, |lens|) == Pow2(k)
    decreases k
  {
    if max < k {
      KraftScaleTo(lens, max, k - 1);
      KraftScale(lens, k - 1, |lens|);
    }
  }

  /** The code lengths a decoder is told: those up to the largest code. */
  ghost predicate FullCode(lens: seq<nat>, max: nat)
  {
    Bounded(lens, max) && Kraft(lens, max, |lens|) == Pow2(max)
  }

  lemma FullCodePrefix(freq: seq<nat>, lens: seq<nat>, max: nat, m: nat)
    requires FullTree(freq, lens, max) && m <= |lens| && max <= MAX_BITS
    requires forall i :: m <= i < |lens| ==> lens[i] == 0
    ensures FullCode(lens[..m], max) && GenCodes.Codable(lens[..m])
  {
    hide Kraft, Pow2;
    KraftPrefix(lens, m, max, |lens|);
    KraftScaleTo(lens[..m], max, MAX_BITS);
  }

  lemma {:induction false} WeightOfLeaves(f: seq<nat>, g: seq<int>, n: nat)
    requires |f| <= |g| && n <= |g| && forall i :: 0 <= i < |f| ==> g[i] == f[i]
    ensures SetSumTo(NonZero(f), g, n) == SumTo(f, if n <= |f| then n else |f|)
  {
    if n > 0 { WeightOfLeaves(f, g, n - 1); }
  }

  lemma {:induction false} ForcedWeight(f: seq<nat>, f': seq<nat>, forced: set<int>, n: nat)
    requires Forced(f, f', forced) && n <= |f|
    ensures SumTo(f', n) <= SumTo(f, n) + (if n > 3 then 3 else n)
  {
    if n > 0 { ForcedWeight(f, f', forced, n - 1); }
  }

  lemma GrowthStart(w: Work, d: TreeDesc, leaves: set<int>)
    requires Apart(w, d) && w.heapMax == HEAP_SIZE && leaves == NonZero(d.fc[..d.elems])
    requires Lists(w.heap[..], w.heapLen, leaves) && 2 <= w.heapLen <= d.elems
    requires Nodes(w.heap[..], w.heapLen, KeysOf(w, d)) && IsHeap(w.heap[..], w.heapLen, KeysOf(w, d), 1)
    ensures |leaves| >= 2 && Growth(w, d, leaves, [], SumTo(d.fc[..d.elems], d.elems))
  {
    hide Nodes, IsHeap;
    WeightOfLeaves(d.fc[..d.elems], d.fc[..], d.fc.Length);
  }

  lemma ExtrasStart(d: TreeDesc)
    requires d.Valid()
    ensures forall n :: 0 <= n < 3 ==> d.Extras()[n] == 0
  {
  }

  /** The result of a tree construction for the frequencies f: codes up to maxCode, none beyond. */
  ghost predicate Coded(f: seq<nat>, fc: seq<nat>, dl: seq<nat>, e: nat, maxCode: int, max: nat)
  {
    |f| == e <= |fc| == |dl| && 1 <= maxCode < e && FullCode(dl[..maxCode + 1], max) && max <= MAX_BITS &&
    GenCodes.Codable(dl[..maxCode + 1]) && dl[maxCode] > 0 &&
    (forall n :: maxCode < n < e ==> dl[n] == 0) &&
    (forall n :: 0 <= n < e && f[n] != 0 ==> n <= maxCode && dl[n] > 0) &&
    (forall n :: 0 <= n <= maxCode && dl[n] > 0 ==> GenCodes.Codes(fc[n], dl[..maxCode + 1], n))
  }

  lemma Sizes(h: seq<int>, len: nat, leaves: set<int>, leaves0: set<int>, forced: set<int>, f: seq<nat>, f': seq<nat>)
    requires Lists(h, len, leaves) && leaves == leaves0 + forced && leaves0 == NonZero(f) && Forced(f, f', forced)
    requires forced != {} ==> len == 2
    ensures |leaves0| >= 2 ==> forced == {}
    ensures SumTo(f', |f|) <= SumTo(f, |f|) + 3
  {
    ForcedWeight(f, f', forced, |f|);
    assert leaves0 !! forced;
    assert |leaves| == |leaves0| + |forced|;
  }

  lemma UsedLeaves(f: seq<nat>, leaves: set<int>)
    requires leaves == NonZero(f)
    ensures forall n :: 0 <= n < |f| ==> (n in leaves <==> f[n] != 0)
  {
  }

  /** A tree for the symbols in use, grown by always joining two lightest roots. */
  ghost predicate Huffman(freq: seq<nat>, hist: seq<Pair>, weight: seq<nat>)
  {
    |freq| <= |weight| && weight[..|freq|] == freq && IsTree(NonZero(freq), |freq|, hist) &&
    AddsUp(|freq|, hist, weight) && Greedy(NonZero(freq), |freq|, hist, weight)
  }

  /** From frequencies to a finished tree: everything before gen_bitlen. */
  method Grown(w: Work, d: TreeDesc)
    returns (ghost leaves: set<int>, ghost hist: seq<Pair>, ghost forced: set<int>, ghost h: seq<int>, ghost len: nat)
    requires Apart(w, d) && SumTo(d.fc[..d.elems], d.elems) < 0x8000
    modifies w, w.heap, w.depth, d`maxCode, d.fc, d.dl
    ensures 1 <= d.maxCode < d.elems && d.maxCode in leaves && leaves == NonZero(d.fc[..d.elems])
    ensures forall n :: n in leaves ==> n <= d.maxCode
    ensures FirstPass.Built(w.heap[..], w.heapMax, d.fc[..d.elems], d.dl[..], d.elems, d.maxCode, leaves, hist)
    ensures AddsUp(d.elems, hist, d.fc[..]) && Greedy(leaves, d.elems, hist, d.fc[..])
    ensures Forced(old(d.fc[..d.elems]), d.fc[..d.elems], forced) && Huffman(d.fc[..d.elems], hist, d.fc[..])
    ensures Lists(h, len, leaves) && len >= 2 && (forced != {} ==> len == 2)
    ensures |NonZero(old(d.fc[..d.elems]))| >= 2 ==> forced == {}
    ensures w.optLen == old(w.optLen) - |forced| && w.staticLen == old(w.staticLen) - StatSum(d, forced)
  {
    hide Lists, IsHeap, Nodes, Keys, Growth, FirstPass.Built, AddsUp, Greedy, Huffman, Forced, NonZero, StatSum, SumTo;
    ghost var f: seq<nat> := d.fc[..d.elems];
    var maxCode, leaves0 := CollectLeaves(w, d);
    leaves := leaves0;
    var top;
    top, leaves, forced := ForceTwo(w, d, maxCode, leaves0);
    h, len := w.heap[..], w.heapLen;
    ghost var f': seq<nat> := d.fc[..d.elems];
    Sizes(h, len, leaves, leaves0, forced, f, f');
    Heapify(w, d, leaves);
    GrowthStart(w, d, leaves);
    UsedLeaves(f', leaves);
    assert forall n :: 0 <= n < d.elems ==> d.fc[n] == f'[n];
    ghost var weight := SumTo(f', d.elems);
    assert weight >= 0 by { SumNonNegative(f', d.elems); }
    hist := Combine(w, d, leaves, weight);
    assert d.fc[..][..d.elems] == d.fc[..d.elems] == f';
    GrownTree(w.heap[..], w.heapMax, f', d.dl[..], d.elems, d.maxCode, leaves, hist, d.fc[..]);
  }

  lemma {:induction false} SumNonNegative(f: seq<nat>, n: nat)
    requires n <= |f|
    ensures SumTo(f, n) >= 0
  {
    if n > 0 { SumNonNegative(f, n - 1); }
  }

  method Build(w: Work, d: TreeDesc) returns (ghost hist: seq<Pair>, ghost weight: seq<nat>)
    requires Apart(w, d) && SumTo(d.fc[..d.elems], d.elems) < 0x8000
    modifies w, w.heap, w.depth, w.blCount, d`maxCode, d.fc, d.dl
    ensures Coded(old(d.fc[..d.elems]), d.fc[..], d.dl[..], d.elems, d.maxCode, d.maxLength)
    ensures w.optLen == old(w.optLen) +
      BitCost(old(d.fc[..d.elems]), d.dl[..d.elems], d.dl[..d.elems], d.Extras(), d.elems)
    ensures d.stat.Some? ==>
      w.staticLen == old(w.staticLen) +
        BitCost(old(d.fc[..d.elems]), d.dl[..d.elems], d.stat.value, d.Extras(), d.elems)
    ensures d.stat.None? ==> w.staticLen == old(w.staticLen)
    ensures |NonZero(old(d.fc[..d.elems]))| >= 2 ==> Huffman(old(d.fc[..d.elems]), hist, weight)
    ensures var f := old(d.fc[..d.elems]);
            |NonZero(f)| < 2 || Shallow(NonZero(f), d.elems, hist, d.maxLength) ==> Cheapest(f, d.dl[..d.elems])
    ensures var f := old(d.fc[..d.elems]); LengthLimit.NoneShorter(NonZero(f), f, d.dl[..d.elems])
  {
    hide Lists, FirstPass.Built, AddsUp, Greedy, BitCost, WeightedLength, FullTree, Coded, Huffman, Shallow, Cheapest;
    hide GenCodes.Tallies, GenCodes.Codable, FullCode, Forced, NonZero, Kraft, Pow2, StatSum, ForcedBits, StatOf, Apart,
      SumTo, LengthLimit.NoneShorter;
    assert w.Valid() && d.Valid() && w.heap != d.fc && w.heap != d.dl && w.blCount != d.fc && w.blCount != d.dl by {
      ApartFacts(w, d);
    }
    ghost var e, f: seq<nat>, x := d.elems, d.fc[..d.elems], d.Extras();
    ghost var leaves, forced, h, len;
    leaves, hist, forced, h, len := Grown(w, d);
    ghost var f': seq<nat> := d.fc[..d.elems];
    weight := d.fc[..];
    GenBitlen(w, d, leaves, hist);
    ghost var lens: seq<nat> := d.dl[..d.elems];
    ForcedEven(d, h, len, leaves, forced, f, f', lens);
    ForcedNone(f, f', forced);
    FewSymbols(h, len, leaves, forced, f, f', lens, d.maxLength);
    if |NonZero(f)| < 2 { FewByWeight(f, lens); }
    Largest(f', lens, d.maxLength, d.maxCode, leaves);
    TalliesPrefix(w.blCount[..], lens, d.maxCode + 1);
    FullCodePrefix(f', lens, d.maxLength, d.maxCode + 1);
    assert lens[..d.maxCode + 1] == d.dl[..d.maxCode + 1];
    GenCodes.GenCodes(d.fc, d.dl, w.blCount, d.maxCode);
    assert d.dl[..d.elems] == lens && d.dl[..][..d.maxCode + 1] == lens[..d.maxCode + 1];
    CodedNow(f, f', forced, d.fc[..], d.dl[..], lens, e, d.maxCode, d.maxLength);
  }

  /** With fewer than two symbols in use no code can be shorter: the one in use has one bit. */
  lemma FewSymbols(h: seq<int>, len: nat, leaves: set<int>, forced: set<int>, f: seq<nat>, f': seq<nat>, lens: seq<nat>,
                   max: nat)
    requires Forced(f, f', forced) && FullTree(f', lens, max) && max > 0
    requires leaves == NonZero(f') && Lists(h, len, leaves) && len >= 2 && (forced != {} ==> len == 2)
    ensures |lens| == |f'| == |f|
    ensures |NonZero(f)| < 2 ==> Cheapest(f, lens)
  {
    hide Kraft, WeightedLength, Lists, FullTree;
    FullTreeLength(f', lens, max);
    if |NonZero(f)| < 2 {
      assert forced != {} by {
        assert |leaves| == len by { ListsSize(h, len, leaves); }
        assert forced == {} ==> f == f';
      }
      TwoListed(h, leaves);
      var a, b := if h[1] < h[2] then h[1] else h[2], if h[1] < h[2] then h[2] else h[1];
      assert forall i :: 0 <= i < |f'| ==> (f'[i] != 0 <==> i in leaves);
      assert a in leaves && b in leaves;
      TwoOnes(f', lens, max, a, b);
      forall alt, m | Competes(f, alt, m) ensures WeightedLength(f, lens, |f|) <= WeightedLength(f, alt, |f|) {
        NoShorter(f, lens, alt, |f|);
      }
    }
  }

  lemma ListsSize(h: seq<int>, len: nat, s: set<int>)
    requires Lists(h, len, s)
    ensures |s| == len
  {
  }

  lemma TimesMono(f: int, a: int, b: int)
    requires f >= 0 && (f != 0 ==> a <= b)
    ensures Times(f, a) <= Times(f, b)
  {
    if f != 0 { assert f * b == f * a + f * (b - a); }
  }

  lemma {:induction false} NoShorter(f: seq<nat>, lens: seq<nat>, alt: seq<nat>, n: nat)
    requires n <= |f| == |lens| == |alt| && forall i :: 0 <= i < |f| && f[i] != 0 ==> lens[i] <= alt[i]
    ensures WeightedLength(f, lens, n) <= WeightedLength(f, alt, n)
  {
    if n > 0 {
      NoShorter(f, lens, alt, n - 1);
      TimesMono(f[n - 1], lens[n - 1], alt[n - 1]);
    }
  }

  lemma GrownTree(heap: seq<int>, hm: nat, freq: seq<nat>, cell: seq<int>, e: nat, maxCode: nat,
                  leaves: set<int>, hist: seq<Pair>, weight: seq<nat>)
    requires FirstPass.Built(heap, hm, freq, cell, e, maxCode, leaves, hist) && leaves == NonZero(freq)
    requires e <= |weight| && weight[..e] == freq && AddsUp(e, hist, weight) && Greedy(leaves, e, hist, weight)
    ensures Huffman(freq, hist, weight)
  {
    hide AddsUp, Greedy, IsTree, NonZero;
    FirstPass.BuiltFacts(heap, hm, freq, cell, e, maxCode, leaves, hist);
  }

  lemma ApartFacts(w: Work, d: TreeDesc)
    requires Apart(w, d)
    ensures w.Valid() && d.Valid() && w.heap != d.fc && w.heap != d.dl && w.blCount != d.fc && w.blCount != d.dl
  {
  }

  lemma ForcedNone(f: seq<nat>, f': seq<nat>, forced: set<int>)
    requires Forced(f, f', forced)
    ensures forced == {} ==> f == f'
  {
  }

  /** What opt_len and static_len lost for forced codes is what they gain for them. */
  lemma ForcedEven(d: TreeDesc, h: seq<int>, len: nat, leaves: set<int>, forced: set<int>, f: seq<nat>, f': seq<nat>,
                   lens: seq<nat>)
    requires d.Valid() && |f| == d.elems && Forced(f, f', forced) && FullTree(f', lens, d.maxLength)
    requires leaves == NonZero(f') && Lists(h, len, leaves) && (forced != {} ==> len == 2)
    ensures |lens| == |f'| == d.elems
    ensures BitCost(f', lens, lens, d.Extras(), d.elems) == BitCost(f, lens, lens, d.Extras(), d.elems) + |forced|
    ensures d.stat.Some? ==>
      BitCost(f', lens, d.stat.value, d.Extras(), d.elems) == BitCost(f, lens, d.stat.value, d.Extras(), d.elems) +
        StatSum(d, forced)
    ensures d.stat.None? ==> StatSum(d, forced) == 0
  {
    hide BitCost, FullTree, Lists, Forced, NonZero, ForcedBits;
    var e, x := d.elems, d.Extras();
    FullTreeLength(f', lens, d.maxLength);
    ForcedLength(f, f', forced);
    ExtrasStart(d);
    ForcedAreOnes(h, leaves, forced, f, f', lens, d.maxLength, x, len);
    CostForced(f, f', forced, lens, lens, x, e);
    if d.stat.Some? {
      CostForced(f, f', forced, lens, d.stat.value, x, e);
      ForcedBitsAre(forced, d.stat.value, x);
    }
  }

  lemma ForcedLength(f: seq<nat>, f': seq<nat>, forced: set<int>)
    requires Forced(f, f', forced)
    ensures |f'| == |f|
  {
  }

  lemma Largest(f: seq<nat>, lens: seq<nat>, max: nat, maxCode: nat, leaves: set<int>)
    requires FullTree(f, lens, max) && leaves == NonZero(f) && maxCode in leaves &&
      forall n :: n in leaves ==> n <= maxCode
    ensures |lens| == |f| && maxCode < |lens| && lens[maxCode] > 0 && forall n :: maxCode < n < |lens| ==> lens[n] == 0
  {
    forall n | maxCode < n < |lens| ensures lens[n] == 0 { assert n !in leaves; }
  }

  lemma CodedNow(f: seq<nat>, f': seq<nat>, forced: set<int>, fc: seq<nat>, dl: seq<nat>, lens: seq<nat>, e: nat,
                 maxCode: int, max: nat)
    requires Forced(f, f', forced) && FullTree(f', lens, max) && |f| == e <= |fc| == |dl| && lens == dl[..e] &&
      max <= MAX_BITS
    requires 1 <= maxCode < e && lens[maxCode] > 0 && (forall n :: maxCode < n < e ==> lens[n] == 0)
    requires FullCode(dl[..maxCode + 1], max) && GenCodes.Codable(dl[..maxCode + 1])
    requires forall n :: 0 <= n <= maxCode && dl[n] > 0 ==> GenCodes.Codes(fc[n], dl[..maxCode + 1], n)
    ensures Coded(f, fc, dl, e, maxCode, max)
  {
    hide FullCode, GenCodes.Codable, GenCodes.Codes, Kraft;
    forall n | 0 <= n < e && f[n] != 0 ensures n <= maxCode && dl[n] > 0 {
      assert f'[n] != 0;
      assert lens[n] > 0;
    }
  }
}
