/** The first loop of gen_bitlen in gzip.c: code lengths from the tree, clipped to the
    maximal length, with their statistics and their cost. */
module FirstPass {
  import opened Bits
  import opened Limits
  import opened Canonical
  import opened Merges
  import opened TreeOrder
  import opened CodeCost

  /** Code lengths assigned so far and what has been accumulated about them. */
  datatype Progress = Progress(lens: seq<nat>, blCount: seq<nat>, opt: int, stat: int)

  /** The number of extra bits of each symbol. */
  ghost function ExtraBits(extra: seq<nat>, base: nat, e: nat): (x: seq<nat>)
    requires base + |extra| >= e
    ensures |x| == e && forall n :: 0 <= n < e ==> x[n] == if n >= base then extra[n - base] else 0
  {
    seq(e, n requires 0 <= n < e => if n >= base then extra[n - base] else 0)
  }

  /** bl_count counts the lengths; the costs are those of the symbols that have a length. */
  ghost predicate Accounts(p: Progress, freq: seq<nat>, st: seq<nat>, x: seq<nat>, e: nat)
  {
    |p.lens| == e && |freq| == e && |x| == e && |st| >= e && |p.blCount| == MAX_BITS + 1 &&
    (forall b :: 0 <= b <= MAX_BITS ==> p.blCount[b] == Used(p.lens, b)) &&
    p.opt == BitCost(freq, p.lens, p.lens, x, e) && p.stat == BitCost(freq, p.lens, st, x, e)
  }

  lemma {:induction false} CountChange(lens: seq<nat>, k: nat, v: nat, b: nat, n: nat)
    requires k < |lens| && n <= |lens|
    ensures Count(lens[k := v], b, n) == Count(lens, b, n) +
              if k < n then (if v == b then 1 else 0) - (if lens[k] == b then 1 else 0) else 0
  {
    if n > 0 { CountChange(lens, k, v, b, n - 1); }
  }

  /** Giving a symbol its length. */
  lemma AccountFor(p: Progress, freq: seq<nat>, st: seq<nat>, x: seq<nat>, e: nat, k: nat, bits: nat)
    requires Accounts(p, freq, st, x, e) && k < e && p.lens[k] == 0 && 0 < bits <= MAX_BITS
    ensures Accounts(Progress(p.lens[k := bits], p.blCount[bits := p.blCount[bits] + 1],
                              p.opt + Times(freq[k], bits + x[k]), p.stat + Times(freq[k], st[k] + x[k])), freq, st, x,
                                e)
  {
    hide Times, Count, BitCost;
    var lens' := p.lens[k := bits];
    forall b | 0 <= b <= MAX_BITS ensures Used(lens', b) == Used(p.lens, b) + if b == bits then 1 else 0 {
      CountChange(p.lens, k, bits, b, e);
    }
    CostChange(freq, p.lens, lens', p.lens, lens', x, e, k);
    CostChange(freq, p.lens, lens', st, st, x, e, k);
  }

  lemma NothingYet(freq: seq<nat>, st: seq<nat>, x: seq<nat>, e: nat, zero: seq<nat>, bl: seq<nat>)
    requires |freq| == e && |x| == e && |st| >= e && |zero| == e && forall i :: 0 <= i < e ==> zero[i] == 0
    requires |bl| == MAX_BITS + 1 && forall i :: 0 <= i < |bl| ==> bl[i] == 0
    ensures Accounts(Progress(zero, bl, 0, 0), freq, st, x, e)
  {
    hide BitCost;
    CostZero(freq, zero, zero, x, e);
    CostZero(freq, zero, st, x, e);
    forall b | 1 <= b <= MAX_BITS ensures Count(zero, b, e) == 0 { NoneCounted(zero, b, e); }
  }

  lemma {:induction false} NoneCounted(zero: seq<nat>, b: nat, n: nat)
    requires n <= |zero| && b > 0 && forall i :: 0 <= i < |zero| ==> zero[i] == 0
    ensures Count(zero, b, n) == 0
  {
    if n > 0 { NoneCounted(zero, b, n - 1); }
  }

  /** What build_tree leaves for gen_bitlen: leaves are the symbols in use. */
  ghost predicate Built(heap: seq<int>, hm: nat, freq: seq<nat>, cell: seq<int>, e: nat, maxCode: nat,
                        leaves: set<int>, hist: seq<Pair>)
  {
    |heap| == HEAP_SIZE && 2 * e <= |cell| && e < 0x8000 && |freq| == e && maxCode < e && |hist| < e &&
    IsTree(leaves, e, hist) && Layout(heap, hm, e, hist) && Dads(cell, e, hist) &&
    (forall n :: 0 <= n < e ==> (n in leaves <==> freq[n] != 0) && (n !in leaves ==> cell[n] == 0)) &&
    (forall n :: n in leaves ==> n <= maxCode)
  }

  /** Symbols listed before h have their length; the others have none yet. */
  ghost predicate Assigned(lens: seq<nat>, cell: seq<int>, heap: seq<int>, hm: nat, h: nat, e: nat)
  {
    |lens| == e && |heap| == HEAP_SIZE && e <= |cell| &&
    (forall i :: hm <= i < h <= HEAP_SIZE && 0 <= heap[i] < e ==> lens[heap[i]] == cell[heap[i]]) &&
    (forall i :: 0 <= h <= i < HEAP_SIZE && 0 <= heap[i] < e ==> lens[heap[i]] == 0)
  }

  /** The number of symbols listed before index h. */
  ghost function LeafCount(heap: seq<int>, hm: nat, h: nat, e: nat): (c: nat)
    requires hm <= h <= |heap|
    decreases h
  {
    if h == hm then 0 else LeafCount(heap, hm, h - 1, e) + if heap[h - 1] < e then 1 else 0
  }

  /** The number of codes of length 1 to b. */
  ghost function Total(bl: seq<nat>, b: nat): (c: nat)
    requires b < |bl|
  {
    if b == 0 then 0 else Total(bl, b - 1) + bl[b]
  }

  lemma {:induction false} TotalChange(bl: seq<nat>, k: nat, v: nat, b: nat)
    requires b < |bl| && 0 < k < |bl|
    ensures Total(bl[k := v], b) == Total(bl, b) + if k <= b then v - bl[k] else 0
  {
    if b > 0 { TotalChange(bl, k, v, b - 1); }
  }

  lemma {:induction false} TotalZero(bl: seq<nat>, b: nat)
    requires b < |bl| && forall i :: 0 <= i < |bl| ==> bl[i] == 0
    ensures Total(bl, b) == 0
  {
    if b > 0 { TotalZero(bl, b - 1); }
  }

  /** The pass proper, on values. */
  ghost predicate Inv(p: Progress, cell: seq<int>, overflow: nat, heap: seq<int>, hm: nat, h: nat, e: nat, max: nat,
                      freq: seq<nat>, st: seq<nat>, x: seq<nat>, leaves: set<int>)
  {
    PassState(cell, heap, hm, e, h, max) && overflow == OverflowTo(cell, hm, e, h, max) &&
    Accounts(p, freq, st, x, e) && Assigned(p.lens, cell, heap, hm, h, e) &&
    Total(p.blCount, MAX_BITS) == LeafCount(heap, hm, h, e) &&
    (forall n :: 0 <= n < e && n !in leaves ==> cell[n] == 0 && p.lens[n] == 0)
  }

  /** One node: what the loop body does to the state. */
  ghost function Next(p: Progress, x: int, bits: int, e: nat, freq: seq<nat>, st: seq<nat>,
                      xs: seq<nat>): (p': Progress)
    requires |p.lens| == |freq| == |xs| == e <= |st| && |p.blCount| == MAX_BITS + 1 && 0 < bits <= MAX_BITS && 0 <= x
  {
    if x >= e then p
    else Progress(p.lens[x := bits], p.blCount[bits := p.blCount[bits] + 1],
                  p.opt + Times(freq[x], bits + xs[x]), p.stat + Times(freq[x], st[x] + xs[x]))
  }

  lemma InvStep(p: Progress, cell: seq<int>, overflow: nat, heap: seq<int>, hm: nat, h: nat, e: nat, max: nat,
                freq: seq<nat>, st: seq<nat>, xs: seq<nat>, leaves: set<int>, hist: seq<Pair>)
    requires IsTree(leaves, e, hist) && Layout(heap, hm, e, hist) && h < HEAP_SIZE && 0 < max <= MAX_BITS
    requires Inv(p, cell, overflow, heap, hm, h, e, max, freq, st, xs, leaves)
    ensures var x := heap[h];
            var d := cell[cell[x]];
            0 <= d <= max &&
            Inv(Next(p, x, Clip(d, max), e, freq, st, xs), cell[x := Clip(d, max)],
                overflow + if d == max then 1 else 0, heap, hm, h + 1, e, max, freq, st, xs, leaves)
  {
    hide IsTree, Layout, OverflowTo, Accounts, PassState, Assigned, Times, Total, LeafCount;
    PassFacts(cell, heap, hm, e, h, max);
    AccountsShape(p, freq, st, xs, e);
    PassStep(leaves, e, hist, cell, heap, hm, h, max);
    var x := heap[h];
    var bits := Clip(cell[cell[x]], max);
    OverflowStep(leaves, e, hist, cell, heap, hm, h, max);
    AssignedStep(p.lens, cell, heap, hm, h, e, bits, leaves, hist);
    ListedKinds(leaves, e, hist, heap, hm, h);
    if x < e {
      AssignedNext(p.lens, cell, heap, hm, h, e);
      AccountFor(p, freq, st, xs, e, x, bits);
      TotalChange(p.blCount, bits, p.blCount[bits] + 1, MAX_BITS);
    }
    LeafCountStep(heap, hm, h, e);
  }

  lemma LeafCountStep(heap: seq<int>, hm: nat, h: nat, e: nat)
    requires hm <= h < |heap|
    ensures LeafCount(heap, hm, h + 1, e) == LeafCount(heap, hm, h, e) + if heap[h] < e then 1 else 0
  {
  }

  lemma AccountsShape(p: Progress, freq: seq<nat>, st: seq<nat>, x: seq<nat>, e: nat)
    requires Accounts(p, freq, st, x, e)
    ensures |p.lens| == |freq| == |x| == e <= |st| && |p.blCount| == MAX_BITS + 1
  {
  }

  lemma PassFacts(cell: seq<int>, heap: seq<int>, hm: nat, e: nat, h: nat, max: nat)
    requires PassState(cell, heap, hm, e, h, max) && h < HEAP_SIZE
    ensures |heap| == HEAP_SIZE && 0 <= heap[h] < |cell|
    ensures hm < h && forall i :: hm <= i < HEAP_SIZE ==> 0 <= e + StepAt(i) < |cell|
  {
  }

  lemma AssignedNext(lens: seq<nat>, cell: seq<int>, heap: seq<int>, hm: nat, h: nat, e: nat)
    requires Assigned(lens, cell, heap, hm, h, e) && h < HEAP_SIZE && 0 <= heap[h] < e
    ensures lens[heap[h]] == 0
  {
  }

  lemma AssignedStep(lens: seq<nat>, cell: seq<int>, heap: seq<int>, hm: nat, h: nat, e: nat, bits: nat,
                     leaves: set<int>, hist: seq<Pair>)
    requires IsTree(leaves, e, hist) && Layout(heap, hm, e, hist) && hm <= h < HEAP_SIZE
    requires Assigned(lens, cell, heap, hm, h, e) && 0 <= heap[h] < |cell|
    ensures Assigned(if heap[h] < e then lens[heap[h] := bits] else lens, cell[heap[h] := bits], heap, hm, h + 1, e)
  {
    hide IsTree, Layout;
    LayoutNoRepeat(leaves, e, hist, heap, hm);
  }

  lemma OverflowStep(leaves: set<int>, e: nat, hist: seq<Pair>, cell: seq<int>, heap: seq<int>, hm: nat, h: nat,
                     max: nat)
    requires IsTree(leaves, e, hist) && Layout(heap, hm, e, hist)
    requires PassState(cell, heap, hm, e, h, max) && h < HEAP_SIZE
    ensures var x := heap[h];
            0 <= cell[x] < |cell| &&
            OverflowTo(cell[x := Clip(cell[cell[x]], max)], hm, e, h + 1, max)
            == OverflowTo(cell, hm, e, h, max) + if cell[cell[x]] == max then 1 else 0
  {
    hide IsTree, Layout, IsHistory, Front;
    LayoutNoRepeat(leaves, e, hist, heap, hm);
    var x := heap[h];
    var cell' := cell[x := Clip(cell[cell[x]], max)];
    forall i | hm < i <= h ensures e + StepAt(i) != x {
      var r := FatherFirst(leaves, e, hist, heap, hm, i);
      assert heap[r] != heap[h];
    }
    OverflowSame(cell, cell', hm, e, h, max);
    assert cell[x] == e + StepAt(h);
    assert cell'[e + StepAt(h)] == cell[cell[x]];
  }

  lemma InvStart(cell: seq<int>, heap: seq<int>, hm: nat, e: nat, maxCode: nat, max: nat, zero: seq<nat>, bl: seq<nat>,
                 freq: seq<nat>, st: seq<nat>, x: seq<nat>, leaves: set<int>, hist: seq<Pair>)
    requires Built(heap, hm, freq, cell, e, maxCode, leaves, hist)
    requires |x| == e && |st| >= e && |zero| == e && forall i :: 0 <= i < e ==> zero[i] == 0
    requires |bl| == MAX_BITS + 1 && forall i :: 0 <= i < |bl| ==> bl[i] == 0
    ensures Inv(Progress(zero, bl, 0, 0), cell[e + |hist| - 1 := 0], 0, heap, hm, hm + 1, e, max, freq, st, x, leaves)
  {
    hide IsTree, Accounts, Dads, Total, LeafCount;
    PassStart(leaves, e, hist, cell, heap, hm, max);
    NothingYet(freq, st, x, e, zero, bl);
    TotalZero(bl, MAX_BITS);
    RootOnly(heap, hm, e, hist);
  }

  lemma RootOnly(heap: seq<int>, hm: nat, e: nat, hist: seq<Pair>)
    requires Layout(heap, hm, e, hist)
    ensures LeafCount(heap, hm, hm + 1, e) == 0
  {
    assert LeafCount(heap, hm, hm, e) == 0;
  }

  lemma BuiltFacts(heap: seq<int>, hm: nat, freq: seq<nat>, cell: seq<int>, e: nat, maxCode: nat,
                   leaves: set<int>, hist: seq<Pair>)
    requires Built(heap, hm, freq, cell, e, maxCode, leaves, hist)
    ensures |heap| == HEAP_SIZE && hm < HEAP_SIZE && IsTree(leaves, e, hist) && Layout(heap, hm, e, hist)
    ensures |hist| > 0 && heap[hm] == e + |hist| - 1 && e + |hist| < |cell| && maxCode < e < 0x8000
    ensures forall n :: n in leaves ==> n <= maxCode
  {
  }

  lemma InvShape(p: Progress, cell: seq<int>, overflow: nat, heap: seq<int>, hm: nat, h: nat, e: nat, max: nat,
                 freq: seq<nat>, st: seq<nat>, x: seq<nat>, leaves: set<int>)
    requires Inv(p, cell, overflow, heap, hm, h, e, max, freq, st, x, leaves)
    ensures |p.lens| == |freq| == |x| == e <= |st| && |p.blCount| == MAX_BITS + 1 && |heap| == HEAP_SIZE
    ensures forall b :: 0 <= b <= MAX_BITS ==> p.blCount[b] <= e
    ensures h < HEAP_SIZE ==> 0 <= heap[h] < |cell| && 0 <= cell[heap[h]] < |cell|
    ensures Accounts(p, freq, st, x, e)
    ensures hm <= h <= HEAP_SIZE && Total(p.blCount, MAX_BITS) == LeafCount(heap, hm, h, e)
  {
    forall b | 0 <= b <= MAX_BITS ensures p.blCount[b] <= e { CountBound(p.lens, b, e); }
  }

  lemma {:induction false} CountBound(lens: seq<nat>, b: nat, n: nat)
    requires n <= |lens|
    ensures Count(lens, b, n) <= n
  {
    if n > 0 { CountBound(lens, b, n - 1); }
  }

  /** After the pass, the cells below e are the code lengths. */
  lemma InvEnd(p: Progress, cell: seq<int>, overflow: nat, heap: seq<int>, hm: nat, e: nat, max: nat,
               freq: seq<nat>, st: seq<nat>, x: seq<nat>, leaves: set<int>, hist: seq<Pair>)
    requires IsTree(leaves, e, hist) && Layout(heap, hm, e, hist) && e + |hist| <= |cell| && max > 0
    requires Inv(p, cell, overflow, heap, hm, HEAP_SIZE, e, max, freq, st, x, leaves)
    ensures IsClippedDepth(e, hist, cell, max) && overflow == 2 * Clipped(e, |hist|, cell, max, 0)
    ensures p.lens == cell[..e]
    ensures forall n :: 0 <= n < e ==> cell[n] <= max && (cell[n] > 0 <==> n in leaves)
  {
    hide IsTree, Accounts, OverflowTo;
    PassEnd(e, hist, cell, heap, hm, max);
    OverflowIsClipped(cell, hm, e, |hist|, max, 0);
    forall n | 0 <= n < e ensures p.lens[n] == cell[n] <= max && (cell[n] > 0 <==> n in leaves) {
      if n in leaves {
        var i := LeafListed(leaves, e, hist, heap, hm, n);
        assert cell[heap[i]] == Clip(cell[e + StepAt(i)], max);
        var q := FatherFirst(leaves, e, hist, heap, hm, i);
      }
    }
  }

  method ClearCounts(blCount: array<ush>)
    requires blCount.Length == MAX_BITS + 1
    modifies blCount
    ensures forall i :: 0 <= i <= MAX_BITS ==> blCount[i] == 0
  {
    for bits := 0 to MAX_BITS + 1
      invariant forall i :: 0 <= i < bits ==> blCount[i] == 0
    {
      blCount[bits] := 0;
    }
  }

  /** The loop over the tree; opt and stat are the amounts added to opt_len and static_len. */
  method Run(heap: array<ush>, hm: nat, fc: array<ush>, dl: array<ush>, blCount: array<ush>,
             e: nat, maxCode: nat, maxLength: nat, extra: seq<nat>, base: nat, st: seq<nat>,
             ghost leaves: set<int>, ghost hist: seq<Pair>)
    returns (overflow: nat, opt: int, stat: int)
    requires dl != heap && dl != fc && dl != blCount && blCount != heap && blCount != fc
    requires blCount.Length == MAX_BITS + 1 && 0 < maxLength <= MAX_BITS
    requires fc.Length == dl.Length && e <= fc.Length && base + |extra| >= e && |st| >= e
    requires Built(heap[..], hm, fc[..e], dl[..], e, maxCode, leaves, hist)
    modifies dl, blCount
    ensures IsClippedDepth(e, hist, dl[..], maxLength)
    ensures overflow == 2 * Clipped(e, |hist|, dl[..], maxLength, 0)
    ensures forall n :: 0 <= n < e ==> dl[n] <= maxLength && (dl[n] > 0 <==> n in leaves)
    ensures Accounts(Progress(dl[..e], blCount[..], opt, stat), fc[..e], st, ExtraBits(extra, base, e), e)
    ensures hm <= HEAP_SIZE == |heap[..]| && Total(blCount[..], MAX_BITS) == LeafCount(heap[..], hm, HEAP_SIZE, e)
  {
    hide Inv, Built, Accounts, IsClippedDepth, IsTree, Layout, Clipped, Total, LeafCount, Times, StepAt;
    BuiltFacts(heap[..], hm, fc[..e], dl[..], e, maxCode, leaves, hist);
    ghost var x, freq: seq<nat> := ExtraBits(extra, base, e), fc[..e];
    ClearCounts(blCount);
    ghost var zero: seq<nat> := seq(e, _ => 0);
    InvStart(dl[..], heap[..], hm, e, maxCode, maxLength, zero, blCount[..], freq, st, x, leaves, hist);
    ghost var p := Progress(zero, blCount[..], 0, 0);
    ghost var cell: seq<int> := dl[..];
    dl[heap[hm]] := 0;
    assert dl[..] == cell[e + |hist| - 1 := 0];
    overflow, opt, stat := 0, 0, 0;
    var h := hm + 1;
    while h < HEAP_SIZE
      invariant hm < h <= HEAP_SIZE && fc[..e] == freq
      invariant p.blCount == blCount[..] && p.opt == opt && p.stat == stat
      invariant Inv(p, dl[..], overflow, heap[..], hm, h, e, maxLength, freq, st, x, leaves)
    {
      cell := dl[..];
      InvStep(p, cell, overflow, heap[..], hm, h, e, maxLength, freq, st, x, leaves, hist);
      InvShape(p, cell, overflow, heap[..], hm, h, e, maxLength, freq, st, x, leaves);
      ListedKinds(leaves, e, hist, heap[..], hm, h);
      var n := heap[h];
      var bits: nat := dl[dl[n]] + 1;
      if bits > maxLength {
        bits := maxLength;
        overflow := overflow + 1;
      }
      dl[n] := bits;
      p := Next(p, n, bits, e, freq, st, x);
      assert dl[..] == cell[n := bits];
      h := h + 1;
      if n > maxCode { continue; }
      blCount[bits] := blCount[bits] + 1;
      var xbits := 0;
      if n >= base { xbits := extra[n - base]; }
      opt := opt + Times(fc[n], bits + xbits);
      stat := stat + Times(fc[n], st[n] + xbits);
    }
    InvEnd(p, dl[..], overflow, heap[..], hm, e, maxLength, freq, st, x, leaves, hist);
    InvShape(p, dl[..], overflow, heap[..], hm, h, e, maxLength, freq, st, x, leaves);
    assert dl[..][..e] == dl[..e];
  }
}
