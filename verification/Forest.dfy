/** The state of the main loop of build_tree: a priority queue holding the roots of
    the current forest, and the history of joins behind it. */
module Forest {
  import opened Bits
  import opened Limits
  import opened Sums
  import opened Merges
  import opened Optimal
  import opened TreeOrder
  import opened PriorityQueue

  /** The pairs joined so far, stored from the end of the heap array downwards. */
  ghost predicate Pairs(heap: seq<int>, heapMax: nat, hist: seq<Pair>)
  {
    |heap| == HEAP_SIZE && heapMax + 2 * |hist| == HEAP_SIZE &&
    forall i :: heapMax <= i < HEAP_SIZE ==>
      heap[i] == if (HEAP_SIZE - 1 - i) % 2 == 0 then hist[StepAt(i)].0 else hist[StepAt(i)].1
  }

  /** Everything but the order of the queue. */
  ghost predicate Growing(freq: seq<int>, cell: seq<int>, e: nat, leaves: set<int>, hist: seq<Pair>, weight: int)
  {
    |freq| == |cell| == 2 * e + 1 && |hist| < |leaves| <= e <= L_CODES &&
    IsHistory(leaves, e, hist) && AddsUp(e, hist, freq) && Greedy(leaves, e, hist, freq) && Dads(cell, e, hist) &&
    (forall x :: 0 <= x < |freq| ==> freq[x] >= 0) &&
    SetSum(Front(leaves, e, hist, |hist|), freq) == weight
  }

  lemma GreedySame(leaves: set<int>, e: nat, hist: seq<Pair>, freq: seq<int>, v: int)
    requires IsHistory(leaves, e, hist) && e + |hist| < |freq| && Greedy(leaves, e, hist, freq)
    ensures Greedy(leaves, e, hist, freq[e + |hist| := v])
  {
    hide IsHistory, Front;
    var freq' := freq[e + |hist| := v];
    forall t | 0 <= t < |hist| ensures Lightest(Front(leaves, e, hist, t), hist[t].0, hist[t].1, freq') {
      Bounds(leaves, e, hist, t);
      Step(leaves, e, hist, t);
      assert Lightest(Front(leaves, e, hist, t), hist[t].0, hist[t].1, freq);
    }
  }

  lemma Bounds(leaves: set<int>, e: nat, hist: seq<Pair>, t: nat)
    requires IsHistory(leaves, e, hist) && t <= |hist|
    ensures forall z :: z in Front(leaves, e, hist, t) ==> 0 <= z < e + t
  {
    FrontBelow(leaves, e, hist, t);
  }

  lemma HistoryExtend(leaves: set<int>, e: nat, hist: seq<Pair>, a: int, b: int)
    requires IsHistory(leaves, e, hist) && a != b
    requires a in Front(leaves, e, hist, |hist|) && b in Front(leaves, e, hist, |hist|)
    ensures IsHistory(leaves, e, hist + [(a, b)])
    ensures forall t :: 0 <= t <= |hist| ==> Front(leaves, e, hist + [(a, b)], t) == Front(leaves, e, hist, t)
  {
    var hist' := hist + [(a, b)];
    forall t | 0 <= t <= |hist| ensures Front(leaves, e, hist', t) == Front(leaves, e, hist, t) {
      FrontExtend(leaves, e, hist, (a, b), t);
    }
    forall t | 0 <= t < |hist'|
      ensures hist'[t].0 != hist'[t].1 && hist'[t].0 in Front(leaves, e, hist', t) &&
        hist'[t].1 in Front(leaves, e, hist', t)
    {
      assert Front(leaves, e, hist', t) == Front(leaves, e, hist, t);
      if t < |hist| { assert hist'[t] == hist[t]; }
    }
  }

  lemma GreedyExtend(leaves: set<int>, e: nat, hist: seq<Pair>, freq: seq<int>, a: int, b: int)
    requires Greedy(leaves, e, hist, freq) && Lightest(Front(leaves, e, hist, |hist|), a, b, freq)
    requires forall t :: 0 <= t <= |hist| ==> Front(leaves, e, hist + [(a, b)], t) == Front(leaves, e, hist, t)
    ensures Greedy(leaves, e, hist + [(a, b)], freq)
  {
    hide Front, Lightest;
    var hist' := hist + [(a, b)];
    forall t | 0 <= t < |hist'| ensures Lightest(Front(leaves, e, hist', t), hist'[t].0, hist'[t].1, freq) {
      assert Front(leaves, e, hist', t) == Front(leaves, e, hist, t);
    }
  }

  /** Two members of the forest weigh no more than the whole. */
  lemma TwoWithin(s: set<int>, freq: seq<int>, a: int, b: int)
    requires a in s && b in s && a != b && 0 <= a < |freq| && 0 <= b < |freq|
    requires forall x :: 0 <= x < |freq| ==> freq[x] >= 0
    ensures freq[a] + freq[b] <= SetSum(s, freq)
  {
    hide SetSum;
    SetSumRemove(s, freq, a);
    SetSumRemove(s - {a}, freq, b);
    SetSumNonNeg(s - {a} - {b}, freq);
  }

  /** Joining the two lightest roots. */
  lemma Grow(freq: seq<int>, cell: seq<int>, e: nat, leaves: set<int>, hist: seq<Pair>, weight: int, a: int, b: int)
    requires Growing(freq, cell, e, leaves, hist, weight) && |hist| + 1 < |leaves|
    requires var s := Front(leaves, e, hist, |hist|); a in s && b in s && a != b && Lightest(s, a, b, freq)
    ensures 0 <= a < e + |hist| && 0 <= b < e + |hist| && e + |hist| < |freq|
    ensures freq[a] + freq[b] <= weight
    ensures var c := e + |hist|;
            Growing(freq[c := freq[a] + freq[b]], cell[a := c][b := c], e, leaves, hist + [(a, b)], weight)
    ensures var s, c := Front(leaves, e, hist, |hist|), e + |hist|;
            c !in s && Front(leaves, e, hist + [(a, b)], |hist| + 1) == s - {a} - {b} + {c}
  {
    hide IsHistory, Front, SetSum, Greedy, Lightest, Dads, AddsUp;
    Bounds(leaves, e, hist, |hist|);
    var s, c, hist' := Front(leaves, e, hist, |hist|), e + |hist|, hist + [(a, b)];
    TwoWithin(s, freq, a, b);
    var freq' := freq[c := freq[a] + freq[b]];
    HistoryExtend(leaves, e, hist, a, b);
    Step(leaves, e, hist', |hist|);
    GreedySame(leaves, e, hist, freq, freq[a] + freq[b]);
    LightestSame(s, a, b, freq, c, freq[a] + freq[b]);
    GreedyExtend(leaves, e, hist, freq', a, b);
    AddsUpExtend(leaves, e, hist, freq, a, b);
    DadsExtend(leaves, e, hist, cell, a, b);
    SetSumSame(s, freq, freq');
    JoinSum(s, a, b, c, freq');
  }

  lemma LightestSame(s: set<int>, a: int, b: int, freq: seq<int>, c: int, v: int)
    requires Lightest(s, a, b, freq) && 0 <= c < |freq| && c !in s && a in s && b in s
    ensures Lightest(s, a, b, freq[c := v])
  {
  }

  lemma AddsUpExtend(leaves: set<int>, e: nat, hist: seq<Pair>, freq: seq<int>, a: int, b: int)
    requires IsHistory(leaves, e, hist) && AddsUp(e, hist, freq) && e + |hist| < |freq|
    requires 0 <= a < e + |hist| && 0 <= b < e + |hist|
    ensures AddsUp(e, hist + [(a, b)], freq[e + |hist| := freq[a] + freq[b]])
  {
    hide IsHistory, Front;
    forall t | 0 <= t < |hist| ensures hist[t].0 < e + t && hist[t].1 < e + t { Step(leaves, e, hist, t); }
  }

  lemma DadsExtend(leaves: set<int>, e: nat, hist: seq<Pair>, cell: seq<int>, a: int, b: int)
    requires IsHistory(leaves, e, hist) && Dads(cell, e, hist) && 0 <= a < |cell| && 0 <= b < |cell|
    requires a in Front(leaves, e, hist, |hist|) && b in Front(leaves, e, hist, |hist|)
    ensures Dads(cell[a := e + |hist|][b := e + |hist|], e, hist + [(a, b)])
  {
    hide IsHistory, Front;
    forall t | 0 <= t < |hist|
      ensures hist[t].0 != a && hist[t].1 != a && hist[t].0 != b && hist[t].1 != b
    {
      Gone(leaves, e, hist, t, |hist|);
    }
  }

  // ---- the queue ----

  /** The last element takes the place of the first: the rest is still a heap. */
  lemma RemoveTop(h: seq<int>, len: nat, keys: seq<int>, s: set<int>)
    requires Nodes(h, len, keys) && IsHeap(h, len, keys, 1) && Lists(h, len, s) && len >= 2
    ensures var h' := h[1 := h[len]];
            Nodes(h', len - 1, keys) && IsHeap(h', len - 1, keys, 2) && Lists(h', len - 1, s - {h[1]})
  {
    var h', len' := h[1 := h[len]], len - 1;
    forall p | 2 <= p ensures InOrder(h', len', keys, p) { assert InOrder(h, len, keys, p); }
  }

  /** A new node takes the place of the first. */
  lemma ReplaceTop(h: seq<int>, len: nat, keys: seq<int>, keys': seq<int>, s: set<int>, c: int)
    requires Nodes(h, len, keys) && IsHeap(h, len, keys, 1) && Lists(h, len, s) && len >= 1
    requires 0 <= c < |keys'| == |keys| && c !in s && forall x :: 0 <= x < |keys| && x != c ==> keys'[x] == keys[x]
    ensures var h' := h[1 := c];
            Nodes(h', len, keys') && IsHeap(h', len, keys', 2) && Lists(h', len, s - {h[1]} + {c})
  {
    var h' := h[1 := c];
    forall p | 2 <= p ensures InOrder(h', len, keys', p) { assert InOrder(h, len, keys, p); }
  }

  /** The top of the queue is the lightest root, and the next top the second lightest. */
  lemma TopIsLightest(h: seq<int>, len: nat, h': seq<int>, freq: seq<nat>, depth: seq<byte>, s: set<int>)
    requires |freq| <= |depth| && len >= 2
    requires var keys := Keys(freq, depth); Nodes(h, len, keys) && IsHeap(h, len, keys, 1) && Lists(h, len, s)
    requires var keys := Keys(freq, depth);
             Nodes(h', len - 1, keys) && IsHeap(h', len - 1, keys, 1) && Lists(h', len - 1, s - {h[1]})
    ensures h[1] in s && h'[1] in s && h[1] != h'[1] && Lightest(s, h[1], h'[1], freq)
  {
    hide IsHeap, Lists, Keys;
    var keys := Keys(freq, depth);
    ListsFirst(h, len, s);
    ListsFirst(h', len - 1, s - {h[1]});
    forall z | z in s && 0 <= z < |freq| ensures freq[h[1]] <= freq[z] {
      ListsAll(h, len, s, z);
      var i :| 1 <= i <= len && h[i] == z;
      TopSmallest(h, len, keys, i);
      KeyOrder(freq, depth, h[1], z);
    }
    forall z | z in s && z != h[1] && 0 <= z < |freq| ensures freq[h'[1]] <= freq[z] {
      ListsAll(h', len - 1, s - {h[1]}, z);
      var i :| 1 <= i <= len - 1 && h'[i] == z;
      TopSmallest(h', len - 1, keys, i);
      KeyOrder(freq, depth, h'[1], z);
    }
  }

  lemma ListsFirst(h: seq<int>, len: nat, s: set<int>)
    requires Lists(h, len, s) && len >= 1
    ensures h[1] in s
  {
  }

  lemma KeyOrder(freq: seq<nat>, depth: seq<byte>, n: int, m: int)
    requires |freq| <= |depth| && 0 <= n < |freq| && 0 <= m < |freq|
    ensures Keys(freq, depth)[n] <= Keys(freq, depth)[m] ==> freq[n] <= freq[m]
  {
  }

  lemma PairsExtend(heap: seq<int>, heapMax: nat, hist: seq<Pair>, a: int, b: int)
    requires Pairs(heap, heapMax, hist) && heapMax >= 2
    ensures Pairs(heap[heapMax - 1 := a][heapMax - 2 := b], heapMax - 2, hist + [(a, b)])
  {
    var heap' := heap[heapMax - 1 := a][heapMax - 2 := b];
    assert StepAt(heapMax - 1) == |hist| && StepAt(heapMax - 2) == |hist|;
    assert forall i :: heapMax <= i < HEAP_SIZE ==> 0 <= StepAt(i) < |hist|;
  }
}
