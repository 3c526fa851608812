/** The second half of gen_bitlen in gzip.c: when codes were clipped to the maximal
    length, repair the number of codes of each length until they fit the code space
    exactly, and hand the lengths out again. */
module LengthLimit {
  import opened Bits
  import opened Limits
  import opened Canonical
  import opened Sums
  import opened Merges
  import opened TreeOrder
  import opened CodeCost
  import opened FirstPass
  import Optimal

  /** Kraft sum of the counts, in units of 2^-b. */
  ghost function KraftOf(bl: seq<nat>, b: nat): (k: int)
    requires b < |bl|
  {
    if b == 0 then 0 else 2 * KraftOf(bl, b - 1) + bl[b]
  }

  lemma {:induction false} KraftChange(bl: seq<nat>, k: nat, v: nat, b: nat)
    requires b < |bl| && 0 < k < |bl|
    ensures KraftOf(bl[k := v], b) == KraftOf(bl, b) + if k <= b then Times(v - bl[k], Pow2(b - k)) else 0
  {
    if b > 0 {
      KraftChange(bl, k, v, b - 1);
      if k < b {
        var d, p := v - bl[k], Pow2(b - 1 - k);
        assert d * (2 * p) == 2 * (d * p);
      }
    }
  }

  /** The counts still have to lose overflow / 2 units, and there are enough longest codes to do so. */
  ghost predicate Overfull(bl: seq<nat>, max: nat, overflow: nat)
  {
    |bl| == MAX_BITS + 1 && 0 < max <= MAX_BITS && bl[0] == 0 && overflow % 2 == 0 &&
    KraftOf(bl, max) == Pow2(max) + overflow / 2 &&
    Total(bl, max) <= Pow2(max) &&
    (overflow > 0 ==> bl[max] > overflow / 2)
  }

  lemma {:induction false} OnlyLongest(bl: seq<nat>, b: nat)
    requires b < |bl| && forall j :: 0 < j <= b ==> bl[j] == 0
    ensures KraftOf(bl, b) == 0 && Total(bl, b) == 0
  {
    if b > 0 { OnlyLongest(bl, b - 1); }
  }

  /** Some code is shorter than the maximum: otherwise all of them would fit. */
  lemma ShorterExists(bl: seq<nat>, max: nat, overflow: nat)
    requires Overfull(bl, max, overflow) && overflow > 0
    ensures exists j :: 0 < j < max && bl[j] > 0
  {
    if forall j :: 0 < j < max ==> bl[j] == 0 { OnlyLongest(bl, max - 1); }
  }

  /** One leaf moves down, an overflow item becomes its brother: one unit less, as many leaves. */
  lemma MoveDown(bl: seq<nat>, max: nat, overflow: nat, bits: nat)
    requires Overfull(bl, max, overflow) && overflow > 0 && 0 < bits < max && bl[bits] > 0
    ensures var bl1 := bl[bits := bl[bits] - 1];
            var bl2 := bl1[bits + 1 := bl1[bits + 1] + 2];
            bl2[max] > 0 &&
            var bl3 := bl2[max := bl2[max] - 1];
            Overfull(bl3, max, overflow - 2) && Total(bl3, max) == Total(bl, max)
  {
    hide Total, KraftOf, Times, Pow2;
    var bl1 := bl[bits := bl[bits] - 1];
    var bl2 := bl1[bits + 1 := bl1[bits + 1] + 2];
    var bl3 := bl2[max := bl2[max] - 1];
    KraftChange(bl, bits, bl1[bits], max);
    KraftChange(bl1, bits + 1, bl2[bits + 1], max);
    KraftChange(bl2, max, bl3[max], max);
    UnitMoves(max, bits);
    TotalChange(bl, bits, bl1[bits], max);
    TotalChange(bl1, bits + 1, bl2[bits + 1], max);
    TotalChange(bl2, max, bl3[max], max);
  }

  lemma UnitMoves(max: nat, bits: nat)
    requires bits < max
    ensures Times(-1, Pow2(max - bits)) + Times(2, Pow2(max - (bits + 1))) == 0 && Times(-1, Pow2(max - max)) == -1
  {
  }

  lemma {:induction false} TotalAtLeast(bl: seq<nat>, b: nat, k: nat)
    requires 0 < k <= b < |bl|
    ensures bl[k] <= Total(bl, b)
  {
    if k < b { TotalAtLeast(bl, b - 1, k); }
  }

  /** The repair loop. */
  method Repair(blCount: array<ush>, maxLength: nat, overflow0: nat)
    requires Overfull(blCount[..], maxLength, overflow0) && overflow0 > 0
    requires Total(blCount[..], maxLength) < 0x8000
    modifies blCount
    ensures Overfull(blCount[..], maxLength, 0)
    ensures Total(blCount[..], maxLength) == old(Total(blCount[..], maxLength))
    ensures forall b :: maxLength < b <= MAX_BITS ==> blCount[b] == old(blCount[b])
  {
    hide Overfull, Total, KraftOf, Pow2;
    OverfullFacts(blCount[..], maxLength, overflow0);
    ghost var total := Total(blCount[..], maxLength);
    var overflow := overflow0;
    while true
      invariant overflow > 0 && Overfull(blCount[..], maxLength, overflow)
      invariant Total(blCount[..], maxLength) == total
      invariant forall b :: maxLength < b <= MAX_BITS ==> blCount[b] == old(blCount[b])
      decreases overflow
    {
      ghost var bl := blCount[..];
      OverfullFacts(bl, maxLength, overflow);
      ShorterExists(bl, maxLength, overflow);
      var bits := maxLength - 1;
      while blCount[bits] == 0
        invariant 0 <= bits < maxLength && blCount[..] == bl
        invariant forall j :: bits < j < maxLength ==> bl[j] == 0
        decreases bits
      {
        bits := bits - 1;
      }
      MoveDown(bl, maxLength, overflow, bits);
      TotalAtLeast(bl, maxLength, bits + 1);
      TotalAtLeast(bl, maxLength, maxLength);
      blCount[bits] := blCount[bits] - 1;
      blCount[bits + 1] := blCount[bits + 1] + 2;
      blCount[maxLength] := blCount[maxLength] - 1;
      assert blCount[..] == bl[bits := bl[bits] - 1][bits + 1 := bl[bits + 1] + 2][maxLength := blCount[maxLength]];
      overflow := overflow - 2;
      OverfullFacts(blCount[..], maxLength, overflow);
      if overflow <= 0 { break; }
    }
  }

  lemma OverfullFacts(bl: seq<nat>, max: nat, overflow: nat)
    requires Overfull(bl, max, overflow)
    ensures |bl| == MAX_BITS + 1 && 0 < max <= MAX_BITS && bl[0] == 0 && overflow % 2 == 0
    ensures overflow > 0 ==> overflow >= 2 && bl[max] > 0
  {
  }

  // ---- what the first pass leaves is overfull by the number of clipped pairs ----

  /** The symbols in use are those with a length. */
  ghost predicate InUse(cell: seq<int>, e: nat, max: nat, leaves: set<int>)
  {
    e <= |cell| && (forall n :: n in leaves ==> 0 <= n < e) &&
    forall n :: 0 <= n < e ==> 0 <= cell[n] <= max && (cell[n] > 0 <==> n in leaves)
  }

  lemma {:induction false} KraftIsSpace(cell: seq<int>, e: nat, max: nat, leaves: set<int>, lens: seq<nat>, n: nat)
    requires InUse(cell, e, max, leaves) && lens == cell[..e] && Bounded(lens, max) && n <= |cell|
    ensures SetSumTo(leaves, Spaces(cell, max), n) == Kraft(lens, max, if n <= e then n else e)
  {
    hide Spaces;
    if n > 0 { KraftIsSpace(cell, e, max, leaves, lens, n - 1); }
  }

  lemma {:induction false} LongestIsAtMax(cell: seq<int>, e: nat, max: nat, leaves: set<int>, lens: seq<nat>, n: nat)
    requires InUse(cell, e, max, leaves) && lens == cell[..e] && n <= |cell| && max > 0
    ensures SetSumTo(leaves, AtMax(cell, max), n) == Count(lens, max, if n <= e then n else e)
  {
    hide AtMax;
    if n > 0 { LongestIsAtMax(cell, e, max, leaves, lens, n - 1); }
  }

  lemma {:induction false} KraftOfIsHorner(bl: seq<nat>, lens: seq<nat>, b: nat)
    requires b < |bl| && forall i :: 0 <= i <= b ==> bl[i] == Used(lens, i)
    ensures KraftOf(bl, b) == Horner(lens, |lens|, b)
  {
    if b > 0 { KraftOfIsHorner(bl, lens, b - 1); }
  }

  ghost function CountUpTo(lens: seq<nat>, b: nat, n: nat): (c: nat)
    requires n <= |lens|
  {
    if b == 0 then 0 else CountUpTo(lens, b - 1, n) + Count(lens, b, n)
  }

  lemma {:induction false} CountUpToStep(lens: seq<nat>, b: nat, n: nat)
    requires 0 < n <= |lens|
    ensures CountUpTo(lens, b, n) == CountUpTo(lens, b, n - 1) + if 0 < lens[n - 1] <= b then 1 else 0
    decreases b
  {
    if b > 0 { CountUpToStep(lens, b - 1, n); }
  }

  lemma {:induction false} CountUpToBound(lens: seq<nat>, b: nat, n: nat)
    requires n <= |lens|
    ensures CountUpTo(lens, b, n) <= n
    decreases n, b
  {
    if n > 0 {
      CountUpToBound(lens, b, n - 1);
      CountUpToStep(lens, b, n);
    } else if b > 0 {
      CountUpToBound(lens, b - 1, 0);
    }
  }

  lemma {:induction false} TotalIsCount(bl: seq<nat>, lens: seq<nat>, b: nat)
    requires b < |bl| && forall i :: 0 <= i <= b ==> bl[i] == Used(lens, i)
    ensures Total(bl, b) == CountUpTo(lens, b, |lens|)
  {
    if b > 0 { TotalIsCount(bl, lens, b - 1); }
  }

  lemma {:induction false} NoneLonger(lens: seq<nat>, max: nat, b: nat, n: nat)
    requires n <= |lens| && Bounded(lens, max) && b > max
    ensures Count(lens, b, n) == 0
  {
    if n > 0 { NoneLonger(lens, max, b, n - 1); }
  }

  lemma {:induction false} TotalBeyond(bl: seq<nat>, max: nat, b: nat)
    requires max <= b < |bl| && forall i :: max < i <= b ==> bl[i] == 0
    ensures Total(bl, b) == Total(bl, max)
  {
    if max < b { TotalBeyond(bl, max, b - 1); }
  }

  /** The initial excess over the code space is half the overflow count. */
  lemma InitialExcess(cell: seq<int>, e: nat, max: nat, leaves: set<int>, hist: seq<Pair>, bl: seq<nat>, lens: seq<nat>)
    requires InUse(cell, e, max, leaves) && lens == cell[..e] && 0 < max <= MAX_BITS && e <= Pow2(max)
    requires IsTree(leaves, e, hist) && IsClippedDepth(e, hist, cell, max)
    requires |bl| == MAX_BITS + 1 && forall b :: 0 <= b <= MAX_BITS ==> bl[b] == Used(lens, b)
    ensures Overfull(bl, max, 2 * Clipped(e, |hist|, cell, max, 0))
    ensures Total(bl, max) == Total(bl, MAX_BITS) <= e
    ensures forall b :: max < b <= MAX_BITS ==> bl[b] == 0
    ensures Bounded(lens, max) && Kraft(lens, max, e) == KraftOf(bl, max)
  {
    hide Total, KraftOf, Kraft, Pow2, SetSumTo, IsTree, IsClippedDepth, Clipped, Spaces, AtMax, CountUpTo, Count,
      Horner, Times;
    assert Bounded(lens, max);
    ClippedKraft(leaves, e, hist, cell, max, 0);
    ManyAtMax(leaves, e, hist, cell, max, 0);
    KraftIsSpace(cell, e, max, leaves, lens, |cell|);
    LongestIsAtMax(cell, e, max, leaves, lens, |cell|);
    KraftIsHorner(lens, max, e);
    KraftOfIsHorner(bl, lens, max);
    TotalIsCount(bl, lens, max);
    CountUpToBound(lens, max, e);
    forall b | max < b <= MAX_BITS ensures bl[b] == 0 { NoneLonger(lens, max, b, e); }
    TotalBeyond(bl, max, MAX_BITS);
    assert Front(leaves, e, hist, 0) == leaves;
  }

  // ---- handing the lengths out again, in increasing order of frequency ----

  /** State of the last loop: symbols listed from index h on have their final length;
      of the codes of length bits, left remain to be handed out. */
  ghost predicate Handing(fin: seq<nat>, cell: seq<int>, heap: seq<int>, hm: nat, h: nat, e: nat,
                          bl: seq<nat>, bits: nat, left: nat, leaves: set<int>)
  {
    |fin| == e <= |cell| && |heap| == HEAP_SIZE && hm <= h <= HEAP_SIZE && |bl| == MAX_BITS + 1 && bits <= MAX_BITS &&
    (forall n :: 0 <= n < e ==> fin[n] <= MAX_BITS) &&
    (forall n :: 0 <= n < e && n !in leaves ==> cell[n] == 0 && fin[n] == 0) &&
    (forall i :: h <= i < HEAP_SIZE && 0 <= heap[i] < e ==> fin[heap[i]] == cell[heap[i]] > 0) &&
    (forall i :: hm <= i < h && 0 <= heap[i] < e ==> fin[heap[i]] == 0 && cell[heap[i]] > 0) &&
    (bits > 0 ==> left <= bl[bits]) && (bits == 0 ==> left == 0) &&
    LeafCount(heap, hm, h, e) == (if bits > 0 then Total(bl, bits - 1) else 0) + left &&
    (forall b :: 1 <= b <= MAX_BITS ==>
      Count(fin, b, e) == if b > bits then bl[b] else if b == bits then bl[b] - left else 0)
  }

  lemma HandOut(fin: seq<nat>, cell: seq<int>, heap: seq<int>, hm: nat, h: nat, e: nat,
                bl: seq<nat>, bits: nat, left: nat, leaves: set<int>, hist: seq<Pair>)
    requires IsTree(leaves, e, hist) && Layout(heap, hm, e, hist)
    requires Handing(fin, cell, heap, hm, h, e, bl, bits, left, leaves) && bits > 0 && left > 0
    ensures h > hm && heap[h - 1] >= 0
    ensures heap[h - 1] < e ==>
      heap[h - 1] in leaves &&
      Handing(fin[heap[h - 1] := bits], cell[heap[h - 1] := bits], heap, hm, h - 1, e, bl, bits, left - 1, leaves)
    ensures heap[h - 1] >= e ==> Handing(fin, cell, heap, hm, h - 1, e, bl, bits, left, leaves)
  {
    hide IsTree, Layout, Total, Count;
    assert h > hm;
    var m := heap[h - 1];
    ListedKinds(leaves, e, hist, heap, hm, h - 1);
    TreeFacts(leaves, e, hist);
    LayoutNoRepeat(leaves, e, hist, heap, hm);
    if m < e {
      forall b | 1 <= b <= MAX_BITS
        ensures Count(fin[m := bits], b, e) == if b > bits then bl[b] else if b == bits then bl[b] - (left - 1) else 0
      {
        CountChange(fin, m, bits, b, e);
        assert Count(fin, b, e) == if b > bits then bl[b] else if b == bits then bl[b] - left else 0;
        assert fin[m] == 0;
      }
    }
  }

  lemma TreeFacts(leaves: set<int>, e: nat, hist: seq<Pair>)
    requires IsTree(leaves, e, hist)
    ensures forall n :: n in leaves ==> 0 <= n < e
  {
  }

  lemma NextLength(fin: seq<nat>, cell: seq<int>, heap: seq<int>, hm: nat, h: nat, e: nat,
                   bl: seq<nat>, bits: nat, leaves: set<int>)
    requires Handing(fin, cell, heap, hm, h, e, bl, bits, 0, leaves) && bits > 0
    ensures Handing(fin, cell, heap, hm, h, e, bl, bits - 1, if bits == 1 then 0 else bl[bits - 1], leaves)
  {
  }

  lemma {:induction false} NoLeafLeft(heap: seq<int>, hm: nat, h: nat, e: nat, i: nat)
    requires hm <= i < h <= |heap| && LeafCount(heap, hm, h, e) == 0
    ensures heap[i] >= e
    decreases h
  {
    if i < h - 1 { NoLeafLeft(heap, hm, h - 1, e, i); }
  }

  lemma HandedOut(fin: seq<nat>, cell: seq<int>, heap: seq<int>, hm: nat, h: nat, e: nat,
                  bl: seq<nat>, leaves: set<int>, hist: seq<Pair>)
    requires IsTree(leaves, e, hist) && Layout(heap, hm, e, hist)
    requires Handing(fin, cell, heap, hm, h, e, bl, 0, 0, leaves)
    ensures fin == cell[..e] && hm <= h && LeafCount(heap, hm, h, e) == 0 &&
      forall b :: 1 <= b <= MAX_BITS ==> Used(fin, b) == bl[b]
    ensures forall n :: 0 <= n < e ==> fin[n] <= MAX_BITS && (fin[n] > 0 <==> n in leaves)
  {
    hide IsTree, Layout, Total;
    forall n | 0 <= n < e ensures fin[n] == cell[n] && (fin[n] > 0 <==> n in leaves) {
      if n in leaves {
        var i := LeafListed(leaves, e, hist, heap, hm, n);
        if i < h { NoLeafLeft(heap, hm, h, e, i); }
      }
    }
  }

  lemma HandingStart(cell: seq<int>, heap: seq<int>, hm: nat, e: nat, bl: seq<nat>, max: nat, zero: seq<nat>,
                     leaves: set<int>, hist: seq<Pair>)
    requires IsTree(leaves, e, hist) && Layout(heap, hm, e, hist) && InUse(cell, e, max, leaves)
    requires |bl| == MAX_BITS + 1 && 0 < max <= MAX_BITS && forall b :: max < b <= MAX_BITS ==> bl[b] == 0
    requires Total(bl, max) == LeafCount(heap, hm, HEAP_SIZE, e)
    requires |zero| == e && forall i :: 0 <= i < e ==> zero[i] == 0
    ensures Handing(zero, cell, heap, hm, HEAP_SIZE, e, bl, max, bl[max], leaves)
  {
    hide IsTree, LeafCount;
    forall b | 1 <= b <= MAX_BITS ensures Count(zero, b, e) == 0 { NoneCounted(zero, b, e); }
    forall i | hm <= i < HEAP_SIZE && 0 <= heap[i] < e ensures cell[heap[i]] > 0 {
      ListedKinds(leaves, e, hist, heap, hm, i);
    }
  }

  lemma TimesDiff(f: int, a: int, b: int, x: int)
    ensures Times(f, b + x) - Times(f, a + x) == Times(f, b - a)
  {
  }

  lemma CostAdjust(freq: seq<nat>, lens: seq<nat>, x: seq<nat>, e: nat, m: nat, bits: nat)
    requires |freq| == |lens| == |x| == e && m < e && lens[m] > 0 && bits > 0
    ensures BitCost(freq, lens[m := bits], lens[m := bits], x, e)
            == BitCost(freq, lens, lens, x, e) + Times(freq[m], bits - lens[m])
  {
    hide Times, BitCost;
    CostChange(freq, lens, lens[m := bits], lens, lens[m := bits], x, e, m);
    TimesDiff(freq[m], lens[m], bits, x[m]);
  }

  // ---- lighter symbols have no shorter codes ----

  /** Symbols listed from index h on have a length of at least bits, and no longer one than those listed after them. */
  ghost predicate Descends(lens: seq<nat>, heap: seq<int>, h: nat, e: nat, bits: nat)
  {
    |lens| == e && |heap| == HEAP_SIZE &&
    (forall i :: h <= i < HEAP_SIZE && 0 <= heap[i] < e ==> lens[heap[i]] >= bits) &&
    (forall i, j :: h <= i < j < HEAP_SIZE && 0 <= heap[i] < e && 0 <= heap[j] < e ==> lens[heap[i]] <= lens[heap[j]])
  }

  lemma DescendStep(lens: seq<nat>, heap: seq<int>, hm: nat, h: nat, e: nat, bits: nat)
    requires Descends(lens, heap, h, e, bits) && NoRepeat(heap, hm) && hm < h <= HEAP_SIZE && heap[h - 1] >= 0
    ensures heap[h - 1] < e ==> Descends(lens[heap[h - 1] := bits], heap, h - 1, e, bits)
    ensures heap[h - 1] >= e ==> Descends(lens, heap, h - 1, e, bits)
  {
  }

  lemma DescendNext(lens: seq<nat>, heap: seq<int>, h: nat, e: nat, bits: nat)
    requires Descends(lens, heap, h, e, bits) && bits > 0
    ensures Descends(lens, heap, h, e, bits - 1)
  {
  }

  lemma DescendStart(lens: seq<nat>, heap: seq<int>, e: nat, bits: nat)
    requires |lens| == e && |heap| == HEAP_SIZE
    ensures Descends(lens, heap, HEAP_SIZE, e, bits)
  {
  }

  /** A leaf joined at step t is a root until then. */
  lemma {:induction false} LeafStays(leaves: set<int>, e: nat, hist: seq<Pair>, b: int, s: nat, t: nat)
    requires IsHistory(leaves, e, hist) && b in leaves && s <= t < |hist| && (hist[t].0 == b || hist[t].1 == b)
    ensures b in Front(leaves, e, hist, s)
  {
    if s == 0 {
      FrontNone(leaves, e, hist);
    } else {
      hide Front, IsHistory;
      LeafStays(leaves, e, hist, b, s - 1, t);
      PairsDiffer(leaves, e, hist, s - 1, t);
      Step(leaves, e, hist, s - 1);
    }
  }

  /** Symbols are listed by weight: later in the array means lighter. */
  lemma LaterIsLighter(leaves: set<int>, e: nat, hist: seq<Pair>, heap: seq<int>, hm: nat, freq: seq<int>, i: nat,
                       j: nat)
    requires IsTree(leaves, e, hist) && Layout(heap, hm, e, hist) && Optimal.Greedy(leaves, e, hist, freq) &&
      e <= |freq|
    requires hm < i < j < HEAP_SIZE && heap[i] in leaves && heap[j] in leaves && 0 <= heap[i] < e && 0 <= heap[j] < e
    ensures freq[heap[j]] <= freq[heap[i]]
  {
    hide Front;
    var s, t := StepAt(j), StepAt(i);
    LeafStays(leaves, e, hist, heap[i], s, t);
    if s < t { PairsDiffer(leaves, e, hist, s, t); }
    assert Optimal.Lightest(Front(leaves, e, hist, s), hist[s].0, hist[s].1, freq);
    Step(leaves, e, hist, s);
  }

  /** Symbols are listed in decreasing order of weight. */
  ghost predicate ByWeight(heap: seq<int>, hm: nat, e: nat, freq: seq<nat>)
  {
    |heap| == HEAP_SIZE && e <= |freq| &&
    forall i, j :: hm < i < j < HEAP_SIZE && 0 <= heap[i] < e && 0 <= heap[j] < e ==> freq[heap[j]] <= freq[heap[i]]
  }

  lemma ListedByWeight(leaves: set<int>, e: nat, hist: seq<Pair>, heap: seq<int>, hm: nat, freq: seq<nat>)
    requires IsTree(leaves, e, hist) && Layout(heap, hm, e, hist) && Optimal.Greedy(leaves, e, hist, freq) &&
      e <= |freq|
    ensures ByWeight(heap, hm, e, freq)
  {
    hide IsTree, Optimal.Greedy;
    forall i, j | hm < i < j < HEAP_SIZE && 0 <= heap[i] < e && 0 <= heap[j] < e
      ensures freq[heap[j]] <= freq[heap[i]] {
      ListedKinds(leaves, e, hist, heap, hm, i);
      ListedKinds(leaves, e, hist, heap, hm, j);
      LaterIsLighter(leaves, e, hist, heap, hm, freq, i, j);
    }
  }

  /** Lighter symbols have no shorter codes. */
  ghost predicate NoneShorter(leaves: set<int>, freq: seq<nat>, lens: seq<nat>)
  {
    |freq| == |lens| &&
    forall a, b :: a in leaves && b in leaves && 0 <= a < |freq| && 0 <= b < |freq| && freq[a] < freq[b] ==>
      lens[a] >= lens[b]
  }

  lemma HandedDown(leaves: set<int>, e: nat, hist: seq<Pair>, heap: seq<int>, hm: nat, h: nat, freq: seq<nat>,
                   lens: seq<nat>)
    requires IsTree(leaves, e, hist) && Layout(heap, hm, e, hist) && ByWeight(heap, hm, e, freq)
    requires Descends(lens, heap, h, e, 0) && hm <= h <= HEAP_SIZE && LeafCount(heap, hm, h, e) == 0
    ensures NoneShorter(leaves, freq[..e], lens)
  {
    hide IsTree, Layout, LeafCount;
    TreeFacts(leaves, e, hist);
    forall a, b | a in leaves && b in leaves && freq[a] < freq[b] ensures lens[a] >= lens[b] {
      var i := LeafListed(leaves, e, hist, heap, hm, b);
      var j := LeafListed(leaves, e, hist, heap, hm, a);
      if i < h { NoLeafLeft(heap, hm, h, e, i); }
      if j < h { NoLeafLeft(heap, hm, h, e, j); }
    }
  }

  /** The last loop of gen_bitlen; opt is the correction added to opt_len. */
  method HandOutLengths(heap: array<ush>, hm: nat, fc: array<ush>, dl: array<ush>, blCount: array<ush>,
                        e: nat, maxCode: nat, maxLength: nat,
                        ghost x: seq<nat>, ghost leaves: set<int>, ghost hist: seq<Pair>)
    returns (opt: int)
    requires dl != heap && dl != fc && dl != blCount
    requires e <= fc.Length && e <= dl.Length && |x| == e && maxCode < e && 0 < maxLength <= MAX_BITS
    requires IsTree(leaves, e, hist) && heap.Length == HEAP_SIZE && Layout(heap[..], hm, e, hist)
    requires InUse(dl[..], e, maxLength, leaves) && forall n :: n in leaves ==> n <= maxCode
    requires blCount.Length == MAX_BITS + 1 && forall b :: maxLength < b <= MAX_BITS ==> blCount[b] == 0
    requires Total(blCount[..], maxLength) == LeafCount(heap[..], hm, HEAP_SIZE, e)
    requires ByWeight(heap[..], hm, e, fc[..])
    modifies dl
    ensures forall b :: 1 <= b <= MAX_BITS ==> Used(dl[..e], b) == blCount[b]
    ensures forall n :: 0 <= n < e ==> dl[n] <= MAX_BITS && (dl[n] > 0 <==> n in leaves)
    ensures opt == BitCost(fc[..e], dl[..e], dl[..e], x, e) - old(BitCost(fc[..e], dl[..e], dl[..e], x, e))
    ensures NoneShorter(leaves, fc[..e], dl[..e])
  {
    hide Handing, IsTree, Layout, InUse, Total, LeafCount, BitCost, Times, Descends, ByWeight, NoneShorter, NoRepeat;
    LayoutNoRepeat(leaves, e, hist, heap[..], hm);
    ghost var fin: seq<nat> := seq(e, _ => 0);
    HandingStart(dl[..], heap[..], hm, e, blCount[..], maxLength, fin, leaves, hist);
    DescendStart(fin, heap[..], e, maxLength);
    var h := HEAP_SIZE;
    opt := 0;
    ghost var freq: seq<nat>, lens0: seq<nat> := fc[..e], dl[..e];
    var bits := maxLength;
    while bits != 0
      invariant 0 <= bits <= maxLength && 0 <= h <= HEAP_SIZE
      invariant Handing(fin, dl[..], heap[..], hm, h, e, blCount[..], bits,
                        if bits == 0 then 0 else blCount[bits], leaves)
      invariant Descends(fin, heap[..], h, e, bits)
      invariant opt == BitCost(freq, dl[..e], dl[..e], x, e) - BitCost(freq, lens0, lens0, x, e)
    {
      var n := blCount[bits];
      while n != 0
        invariant 0 <= h <= HEAP_SIZE
        invariant Handing(fin, dl[..], heap[..], hm, h, e, blCount[..], bits, n, leaves) &&
          Descends(fin, heap[..], h, e, bits)
        invariant opt == BitCost(freq, dl[..e], dl[..e], x, e) - BitCost(freq, lens0, lens0, x, e)
        decreases h
      {
        HandOut(fin, dl[..], heap[..], hm, h, e, blCount[..], bits, n, leaves, hist);
        DescendStep(fin, heap[..], hm, h, e, bits);
        h := h - 1;
        var m := heap[h];
        if m > maxCode { continue; }
        ghost var lens: seq<nat>, cell: seq<int> := dl[..e], dl[..];
        HandingFacts(fin, cell, heap[..], hm, h + 1, e, blCount[..], bits, n, leaves, m);
        CostAdjust(freq, lens, x, e, m, bits);
        if dl[m] != bits {
          opt := opt + Times(fc[m], bits - dl[m]);
          dl[m] := bits;
        } else {
          TimesZero(fc[m]);
        }
        assert dl[..e] == lens[m := bits] && dl[..] == cell[m := bits];
        fin := fin[m := bits];
        n := n - 1;
      }
      NextLength(fin, dl[..], heap[..], hm, h, e, blCount[..], bits, leaves);
      DescendNext(fin, heap[..], h, e, bits);
      bits := bits - 1;
    }
    HandedOut(fin, dl[..], heap[..], hm, h, e, blCount[..], leaves, hist);
    HandedDown(leaves, e, hist, heap[..], hm, h, fc[..], fin);
    assert dl[..][..e] == dl[..e] && fc[..][..e] == fc[..e];
  }

  lemma HandingFacts(fin: seq<nat>, cell: seq<int>, heap: seq<int>, hm: nat, h: nat, e: nat,
                     bl: seq<nat>, bits: nat, left: nat, leaves: set<int>, m: int)
    requires Handing(fin, cell, heap, hm, h, e, bl, bits, left, leaves) && hm < h && m == heap[h - 1] && 0 <= m < e
    ensures |fin| == e && cell[m] > 0
  {
  }
}
