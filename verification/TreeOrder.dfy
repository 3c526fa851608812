/** How build_tree lays out the history of a Huffman construction in the upper end of
    the heap array, and why a single pass over it can turn every "dad" link into a
    depth although both share one storage cell. */
module TreeOrder {
  import opened Limits
  import opened Merges

  /** The step whose pair is stored at index i of the heap array. */
  function StepAt(i: int): (t: int)
  {
    (HEAP_SIZE - 1 - i) / 2
  }

  /** heap[hm..] holds the root, then the pairs of hist, latest first. */
  ghost predicate Layout(heap: seq<int>, hm: nat, e: nat, hist: seq<Pair>)
  {
    |heap| == HEAP_SIZE && |hist| > 0 && hm + 2 * |hist| + 1 == HEAP_SIZE && heap[hm] == e + |hist| - 1 &&
    forall i :: hm < i < HEAP_SIZE ==>
      heap[i] == if (HEAP_SIZE - 1 - i) % 2 == 0 then hist[StepAt(i)].0 else hist[StepAt(i)].1
  }

  lemma {:induction false} Gone(leaves: set<int>, e: nat, hist: seq<Pair>, s: nat, t: nat)
    requires IsHistory(leaves, e, hist) && s < t <= |hist|
    ensures hist[s].0 !in Front(leaves, e, hist, t) && hist[s].1 !in Front(leaves, e, hist, t)
    decreases t
  {
    hide Front, IsHistory;
    Step(leaves, e, hist, s);
    if s + 1 < t {
      Gone(leaves, e, hist, s, t - 1);
      Step(leaves, e, hist, t - 1);
    }
  }

  /** Pairs of different steps have nothing in common. */
  lemma PairsDiffer(leaves: set<int>, e: nat, hist: seq<Pair>, s: nat, t: nat)
    requires IsHistory(leaves, e, hist) && s < t < |hist|
    ensures hist[s].0 != hist[t].0 && hist[s].0 != hist[t].1 && hist[s].1 != hist[t].0 && hist[s].1 != hist[t].1
    ensures hist[s].0 != e + t && hist[s].1 != e + t
  {
    hide Front, IsHistory;
    Gone(leaves, e, hist, s, t);
    Step(leaves, e, hist, s);
    Step(leaves, e, hist, t);
  }

  /** A root that is not there at the end is joined at some step. */
  lemma {:induction false} JoinedAt(leaves: set<int>, e: nat, hist: seq<Pair>, x: int, s: nat) returns (t: nat)
    requires IsHistory(leaves, e, hist) && s <= |hist|
    requires x in Front(leaves, e, hist, s) && x !in Front(leaves, e, hist, |hist|)
    ensures s <= t < |hist| && (hist[t].0 == x || hist[t].1 == x)
    decreases |hist| - s
  {
    hide Front, IsHistory;
    Step(leaves, e, hist, s);
    if x in Front(leaves, e, hist, s + 1) {
      t := JoinedAt(leaves, e, hist, x, s + 1);
    } else {
      t := s;
    }
  }

  /** No node is listed twice. */
  ghost predicate NoRepeat(heap: seq<int>, hm: nat)
  {
    |heap| == HEAP_SIZE && forall i, j :: hm <= i < j < HEAP_SIZE ==> heap[i] != heap[j]
  }

  lemma LayoutNoRepeat(leaves: set<int>, e: nat, hist: seq<Pair>, heap: seq<int>, hm: nat)
    requires IsTree(leaves, e, hist) && Layout(heap, hm, e, hist)
    ensures NoRepeat(heap, hm)
  {
    hide Front, IsHistory;
    forall i, j | hm <= i < j < HEAP_SIZE ensures heap[i] != heap[j] {
      var s := StepAt(j);
      Step(leaves, e, hist, s);
      if i > hm {
        var t := StepAt(i);
        Step(leaves, e, hist, t);
        if s < t { PairsDiffer(leaves, e, hist, s, t); }
      }
    }
  }

  /** Every node is listed after its father. */
  lemma FatherFirst(leaves: set<int>, e: nat, hist: seq<Pair>, heap: seq<int>, hm: nat, i: nat) returns (q: nat)
    requires IsTree(leaves, e, hist) && Layout(heap, hm, e, hist) && hm < i < HEAP_SIZE
    ensures hm <= q < i && heap[q] == e + StepAt(i)
  {
    hide IsHistory;
    var t := StepAt(i);
    if t == |hist| - 1 {
      q := hm;
    } else {
      Step(leaves, e, hist, t);
      var s := JoinedAt(leaves, e, hist, e + t, t + 1);
      q := if hist[s].0 == e + t then HEAP_SIZE - 1 - 2 * s else HEAP_SIZE - 2 - 2 * s;
      assert StepAt(q) == s;
    }
  }

  /** Every leaf is listed. */
  lemma LeafListed(leaves: set<int>, e: nat, hist: seq<Pair>, heap: seq<int>, hm: nat, x: int) returns (i: nat)
    requires IsTree(leaves, e, hist) && Layout(heap, hm, e, hist) && x in leaves
    ensures hm < i < HEAP_SIZE && heap[i] == x
  {
    var t := JoinedAt(leaves, e, hist, x, 0);
    i := if hist[t].0 == x then HEAP_SIZE - 1 - 2 * t else HEAP_SIZE - 2 - 2 * t;
    assert StepAt(i) == t;
  }

  lemma {:induction false} FrontKinds(leaves: set<int>, e: nat, hist: seq<Pair>, t: nat)
    requires IsHistory(leaves, e, hist) && t <= |hist|
    ensures forall x :: x in Front(leaves, e, hist, t) ==> x in leaves || e <= x < e + t
  {
    hide IsHistory, Front;
    if t > 0 {
      FrontKinds(leaves, e, hist, t - 1);
      FrontStep(leaves, e, hist, t);
    } else {
      FrontFirst(leaves, e, hist);
    }
  }

  lemma FrontStep(leaves: set<int>, e: int, hist: seq<Pair>, t: nat)
    requires 0 < t <= |hist|
    ensures forall x :: x in Front(leaves, e, hist, t) ==> x in Front(leaves, e, hist, t - 1) || x == e + t - 1
  {
  }

  lemma FrontFirst(leaves: set<int>, e: int, hist: seq<Pair>)
    ensures Front(leaves, e, hist, 0) == leaves
  {
  }

  /** Only leaves and created nodes are listed. */
  lemma ListedKinds(leaves: set<int>, e: nat, hist: seq<Pair>, heap: seq<int>, hm: nat, i: nat)
    requires IsTree(leaves, e, hist) && Layout(heap, hm, e, hist) && hm <= i < HEAP_SIZE
    ensures heap[i] in leaves || e <= heap[i] < e + |hist|
  {
    hide Front, IsHistory;
    if i > hm {
      var t := StepAt(i);
      Step(leaves, e, hist, t);
      FrontKinds(leaves, e, hist, t);
    }
  }

  /** Every created node, and every leaf, has its "dad" in its cell. */
  ghost predicate Dads(cell: seq<int>, e: nat, hist: seq<Pair>)
  {
    forall t :: 0 <= t < |hist| ==>
      0 <= hist[t].0 < |cell| && 0 <= hist[t].1 < |cell| && cell[hist[t].0] == cell[hist[t].1] == e + t
  }

  function Clip(d: int, max: nat): (r: int)
  {
    if d == max then max else d + 1
  }

  /** State of the pass when index h is next: before h, depths; from h on, dads. */
  ghost predicate PassState(cell: seq<int>, heap: seq<int>, hm: nat, e: nat, h: nat, max: nat)
  {
    |heap| == HEAP_SIZE && hm < h <= HEAP_SIZE &&
    (forall i :: hm <= i < HEAP_SIZE ==> 0 <= heap[i] < |cell| && 0 <= e + StepAt(i) < |cell|) &&
    cell[heap[hm]] == 0 &&
    (forall i :: hm <= i < h ==> 0 <= cell[heap[i]] <= max) &&
    (forall i :: hm < i < h ==> cell[heap[i]] == Clip(cell[e + StepAt(i)], max)) &&
    (forall i :: h <= i < HEAP_SIZE ==> cell[heap[i]] == e + StepAt(i))
  }

  lemma PassStart(leaves: set<int>, e: nat, hist: seq<Pair>, cell: seq<int>, heap: seq<int>, hm: nat, max: nat)
    requires IsTree(leaves, e, hist) && Layout(heap, hm, e, hist) && e + |hist| < |cell| && Dads(cell, e, hist)
    ensures PassState(cell[e + |hist| - 1 := 0], heap, hm, e, hm + 1, max)
  {
    hide IsHistory, Front;
    LayoutNoRepeat(leaves, e, hist, heap, hm);
    var cell' := cell[e + |hist| - 1 := 0];
    forall i | hm < i < HEAP_SIZE ensures 0 <= heap[i] < |cell| && cell'[heap[i]] == e + StepAt(i) {
      assert heap[hm] != heap[i];
    }
  }

  /** Replacing the dad of the next node by its depth keeps the pass going. */
  lemma PassStep(leaves: set<int>, e: nat, hist: seq<Pair>, cell: seq<int>, heap: seq<int>, hm: nat, h: nat, max: nat)
    requires IsTree(leaves, e, hist) && Layout(heap, hm, e, hist)
    requires PassState(cell, heap, hm, e, h, max) && h < HEAP_SIZE
    ensures var x := heap[h];
            cell[x] == e + StepAt(h) && 0 <= cell[cell[x]] <= max &&
            PassState(cell[x := Clip(cell[cell[x]], max)], heap, hm, e, h + 1, max)
  {
    hide IsTree, Layout, IsHistory, Front;
    LayoutNoRepeat(leaves, e, hist, heap, hm);
    var x := heap[h];
    var q := FatherFirst(leaves, e, hist, heap, hm, h);
    var cell' := cell[x := Clip(cell[cell[x]], max)];
    forall i | hm < i <= h ensures e + StepAt(i) != x {
      var r := FatherFirst(leaves, e, hist, heap, hm, i);
      assert heap[r] != heap[h];
    }
    assert forall i :: hm <= i < HEAP_SIZE && i != h ==> cell'[heap[i]] == cell[heap[i]];
    assert forall i :: hm < i <= h ==> cell'[e + StepAt(i)] == cell[e + StepAt(i)];
  }

  /** At the end every cell holds the clipped depth of its node. */
  lemma PassEnd(e: nat, hist: seq<Pair>, cell: seq<int>, heap: seq<int>, hm: nat, max: nat)
    requires Layout(heap, hm, e, hist) && e + |hist| <= |cell|
    requires PassState(cell, heap, hm, e, HEAP_SIZE, max)
    ensures IsClippedDepth(e, hist, cell, max)
  {
    forall t | 0 <= t < |hist|
      ensures 0 <= hist[t].0 < |cell| && 0 <= hist[t].1 < |cell|
      ensures cell[hist[t].0] == cell[hist[t].1] == Clip(cell[e + t], max)
    {
      var i, j := HEAP_SIZE - 1 - 2 * t, HEAP_SIZE - 2 - 2 * t;
      assert StepAt(i) == t && StepAt(j) == t;
      assert heap[i] == hist[t].0 && heap[j] == hist[t].1;
    }
  }

  /** The number of nodes listed before index h whose depth was clipped. */
  ghost function OverflowTo(cell: seq<int>, hm: nat, e: nat, h: nat, max: nat): (c: nat)
    requires hm < h <= HEAP_SIZE && forall i :: hm <= i < HEAP_SIZE ==> 0 <= e + StepAt(i) < |cell|
    decreases h
  {
    if h == hm + 1 then 0
    else OverflowTo(cell, hm, e, h - 1, max) + if cell[e + StepAt(h - 1)] == max then 1 else 0
  }

  lemma {:induction false} OverflowSame(cell: seq<int>, cell': seq<int>, hm: nat, e: nat, h: nat, max: nat)
    requires hm < h <= HEAP_SIZE && |cell| == |cell'|
    requires forall i :: hm <= i < HEAP_SIZE ==> 0 <= e + StepAt(i) < |cell|
    requires forall i :: hm < i < h ==> cell[e + StepAt(i)] == cell'[e + StepAt(i)]
    ensures OverflowTo(cell, hm, e, h, max) == OverflowTo(cell', hm, e, h, max)
    decreases h
  {
    if h > hm + 1 { OverflowSame(cell, cell', hm, e, h - 1, max); }
  }

  /** Clipped nodes come in pairs. */
  lemma {:induction false} OverflowIsClipped(cell: seq<int>, hm: nat, e: nat, k: nat, max: nat, t: nat)
    requires k > 0 && hm + 2 * k + 1 == HEAP_SIZE && e + k <= |cell| && t <= k
    requires forall i :: hm <= i < HEAP_SIZE ==> 0 <= e + StepAt(i) < |cell|
    ensures OverflowTo(cell, hm, e, HEAP_SIZE - 2 * t, max) == 2 * Clipped(e, k, cell, max, t)
    decreases k - t
  {
    if t < k {
      OverflowIsClipped(cell, hm, e, k, max, t + 1);
      var h := HEAP_SIZE - 2 * t;
      assert StepAt(h - 1) == t && StepAt(h - 2) == t;
      assert OverflowTo(cell, hm, e, h, max) == OverflowTo(cell, hm, e, h - 1, max) + if cell[e + t] == max then 1
        else 0;
      assert OverflowTo(cell, hm, e, h - 1, max) == OverflowTo(cell, hm, e, h - 2, max) + if cell[e + t] == max then 1
        else 0;
    }
  }
}
