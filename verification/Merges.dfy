/** The history of a Huffman construction: which two nodes were joined at each
    step. Leaves are numbered below e; step t creates node e + t. From the history
    alone follow the Kraft sum of clipped depths, and the cost of unclipped ones. */
module Merges {
  import opened Bits
  import opened Sums

  type Pair = (int, int)

  /** The forest after t steps, as the set of its roots. */
  ghost function Front(leaves: set<int>, e: int, hist: seq<Pair>, t: nat): (s: set<int>)
    requires t <= |hist|
  {
    if t == 0 then leaves
    else Front(leaves, e, hist, t - 1) - {hist[t - 1].0, hist[t - 1].1} + {e + t - 1}
  }

  /** Every step joins two different roots of the current forest. */
  ghost predicate IsHistory(leaves: set<int>, e: int, hist: seq<Pair>)
  {
    e >= 0 && (forall x :: x in leaves ==> 0 <= x < e) &&
    forall t :: 0 <= t < |hist| ==>
      hist[t].0 != hist[t].1 && hist[t].0 in Front(leaves, e, hist, t) && hist[t].1 in Front(leaves, e, hist, t)
  }

  /** The whole construction: it ends with a single root. */
  ghost predicate IsTree(leaves: set<int>, e: int, hist: seq<Pair>)
  {
    IsHistory(leaves, e, hist) && |hist| > 0 &&
    Front(leaves, e, hist, |hist|) == {e + |hist| - 1}
  }

  lemma {:induction false} FrontBelow(leaves: set<int>, e: int, hist: seq<Pair>, t: nat)
    requires t <= |hist| && e >= 0 && forall x :: x in leaves ==> 0 <= x < e
    ensures forall x :: x in Front(leaves, e, hist, t) ==> 0 <= x < e + t
  {
    if t > 0 { FrontBelow(leaves, e, hist, t - 1); }
  }

  lemma {:induction false} FrontExtend(leaves: set<int>, e: int, hist: seq<Pair>, p: Pair, t: nat)
    requires t <= |hist|
    ensures Front(leaves, e, hist + [p], t) == Front(leaves, e, hist, t)
  {
    if t > 0 { FrontExtend(leaves, e, hist, p, t - 1); }
  }

  lemma Step(leaves: set<int>, e: nat, hist: seq<Pair>, t: nat)
    requires IsHistory(leaves, e, hist) && t < |hist|
    ensures var s, s' := Front(leaves, e, hist, t), Front(leaves, e, hist, t + 1);
            var a, b := hist[t].0, hist[t].1;
            a != b && a in s && b in s && 0 <= a < e + t && 0 <= b < e + t &&
            e + t !in s && s' == s - {a} - {b} + {e + t}
  {
    FrontBelow(leaves, e, hist, t);
  }

  /** How a sum over the forest changes in one step. */
  lemma FrontSumStep(leaves: set<int>, e: nat, hist: seq<Pair>, t: nat, f: seq<int>)
    requires IsHistory(leaves, e, hist) && t < |hist| && e + |hist| <= |f|
    ensures 0 <= hist[t].0 < e + t && 0 <= hist[t].1 < e + t
    ensures SetSum(Front(leaves, e, hist, t), f) + f[e + t]
            == SetSum(Front(leaves, e, hist, t + 1), f) + f[hist[t].0] + f[hist[t].1]
  {
    hide Front, IsHistory, SetSum;
    Step(leaves, e, hist, t);
    JoinSum(Front(leaves, e, hist, t), hist[t].0, hist[t].1, e + t, f);
  }

  /** Depths below the last node created, with everything deeper than max clipped to max. */
  ghost predicate IsClippedDepth(e: int, hist: seq<Pair>, len: seq<int>, max: nat)
  {
    e >= 0 && |hist| > 0 && e + |hist| <= |len| && len[e + |hist| - 1] == 0 &&
    forall t :: 0 <= t < |hist| ==>
      0 <= hist[t].0 < |len| && 0 <= hist[t].1 < |len| &&
      len[hist[t].0] == len[hist[t].1] == if len[e + t] == max then max else len[e + t] + 1
  }

  /** How many nodes created from step t on have depth max or more, so that their sons are clipped. */
  ghost function Clipped(e: nat, k: nat, len: seq<int>, max: nat, t: nat): (c: nat)
    requires t <= k && e + k <= |len|
    decreases k - t
  {
    if t == k then 0 else Clipped(e, k, len, max, t + 1) + if len[e + t] == max then 1 else 0
  }

  ghost predicate DepthsIn(s: set<int>, len: seq<int>, max: nat)
  {
    forall x :: x in s ==> 0 <= x < |len| && 0 <= len[x] <= max
  }

  /** Every root of the forest has a depth between 0 and max. */
  lemma {:induction false} FrontDepths(leaves: set<int>, e: nat, hist: seq<Pair>, len: seq<int>, max: nat, t: nat)
    requires IsTree(leaves, e, hist) && t <= |hist| && IsClippedDepth(e, hist, len, max)
    ensures DepthsIn(Front(leaves, e, hist, t), len, max)
    ensures t > 0 ==> 0 <= len[e + t - 1] <= max
    decreases |hist| - t
  {
    hide Front, IsHistory;
    if t < |hist| {
      FrontDepths(leaves, e, hist, len, max, t + 1);
      Step(leaves, e, hist, t);
      var s := Front(leaves, e, hist, t);
      assert forall x :: x in s ==> x == hist[t].0 || x == hist[t].1 || x in Front(leaves, e, hist, t + 1);
    }
    if t > 0 {
      Step(leaves, e, hist, t - 1);
      assert e + t - 1 in Front(leaves, e, hist, t);
    }
  }

  /** 2^(max - depth) for every node: its code space in units of 2^-max. */
  ghost function Spaces(len: seq<int>, max: nat): (u: seq<int>)
    ensures |u| == |len|
    ensures forall x :: 0 <= x < |len| && 0 <= len[x] <= max ==> u[x] == Pow2(max - len[x])
  {
    seq(|len|, x requires 0 <= x < |len| => if 0 <= len[x] <= max then Pow2(max - len[x]) else 0)
  }

  lemma Pow2Zero()
    ensures Pow2(0) == 1
  {
  }

  lemma SplitSpace(max: nat, d: nat)
    requires d < max
    ensures Pow2(max - d) == 2 * Pow2(max - (d + 1))
  {
  }

  /** Clipping makes the Kraft sum exceed 1 by exactly one unit for every clipped pair. */
  lemma {:induction false} ClippedKraft(leaves: set<int>, e: nat, hist: seq<Pair>, len: seq<int>, max: nat, t: nat)
    requires IsTree(leaves, e, hist) && t <= |hist| && IsClippedDepth(e, hist, len, max)
    ensures SetSum(Front(leaves, e, hist, t), Spaces(len, max)) == Pow2(max) + Clipped(e, |hist|, len, max, t)
    decreases |hist| - t
  {
    hide Front, IsHistory, SetSum, Spaces, Pow2;
    var u := Spaces(len, max);
    if t == |hist| {
      SetSumOne(e + |hist| - 1, u);
    } else {
      ClippedKraft(leaves, e, hist, len, max, t + 1);
      FrontSumStep(leaves, e, hist, t, u);
      FrontDepths(leaves, e, hist, len, max, t + 1);
      var d := len[e + t];
      if d < max { SplitSpace(max, d); } else { Pow2Zero(); }
    }
  }

  /** 1 for every node at depth max. */
  ghost function AtMax(len: seq<int>, max: nat): (u: seq<int>)
    ensures |u| == |len|
    ensures forall x :: 0 <= x < |len| ==> u[x] == if len[x] == max then 1 else 0
  {
    seq(|len|, x requires 0 <= x < |len| => if len[x] == max then 1 else 0)
  }

  lemma MemberAtMax(s: set<int>, len: seq<int>, max: nat, x: int)
    requires 0 <= x < |len| && x in s && len[x] == max
    ensures SetSum(s, AtMax(len, max)) >= 1
  {
    hide SetSum, AtMax;
    SetSumRemove(s, AtMax(len, max), x);
    SetSumNonNeg(s - {x}, AtMax(len, max));
  }

  /** There are more nodes at depth max than clipped pairs, as soon as anything is clipped. */
  lemma {:induction false} ManyAtMax(leaves: set<int>, e: nat, hist: seq<Pair>, len: seq<int>, max: nat, t: nat)
    requires IsTree(leaves, e, hist) && t <= |hist| && IsClippedDepth(e, hist, len, max)
    ensures var c := Clipped(e, |hist|, len, max, t);
            SetSum(Front(leaves, e, hist, t), AtMax(len, max)) >= if c > 0 then c + 1 else 0
    decreases |hist| - t
  {
    hide Front, IsHistory, SetSum, AtMax;
    var u := AtMax(len, max);
    if t == |hist| {
      SetSumOne(e + |hist| - 1, u);
    } else {
      ManyAtMax(leaves, e, hist, len, max, t + 1);
      FrontSumStep(leaves, e, hist, t, u);
      Step(leaves, e, hist, t);
      assert e + t in Front(leaves, e, hist, t + 1);
      if len[e + t] == max {
        MemberAtMax(Front(leaves, e, hist, t + 1), len, max, e + t);
      }
    }
  }

  function Times(a: int, b: int): (c: int)
  {
    a * b
  }

  ghost function Products(f: seq<int>, g: seq<int>): (u: seq<int>)
    requires |f| == |g|
    ensures |u| == |f| && forall x :: 0 <= x < |f| ==> u[x] == Times(f[x], g[x])
  {
    seq(|f|, x requires 0 <= x < |f| => Times(f[x], g[x]))
  }

  /** A node created by a step weighs as much as the two nodes it joins. */
  ghost predicate AddsUp(e: int, hist: seq<Pair>, freq: seq<int>)
  {
    e >= 0 && e + |hist| <= |freq| &&
    forall t :: 0 <= t < |hist| ==>
      0 <= hist[t].0 < |freq| && 0 <= hist[t].1 < |freq| &&
      freq[e + t] == freq[hist[t].0] + freq[hist[t].1]
  }

  /** The total weight of the nodes created from step t on. */
  ghost function Created(e: nat, k: nat, freq: seq<int>, t: nat): (c: int)
    requires t <= k && e + k <= |freq|
    decreases k - t
  {
    if t == k then 0 else freq[e + t] + Created(e, k, freq, t + 1)
  }

  lemma TimesZero(a: int)
    ensures Times(a, 0) == 0
  {
  }

  lemma Distribute(a: int, b: int, d: int)
    ensures Times(a, d + 1) + Times(b, d + 1) == Times(a + b, d) + (a + b)
  {
  }

  /** Without clipping, weight times depth summed over the forest is the weight of the nodes above it. */
  lemma {:induction false} UnclippedCost(leaves: set<int>, e: nat, hist: seq<Pair>, len: seq<int>, max: nat,
                                         freq: seq<int>, t: nat)
    requires IsTree(leaves, e, hist) && t <= |hist| && IsClippedDepth(e, hist, len, max)
    requires AddsUp(e, hist, freq) && |freq| == |len|
    requires Clipped(e, |hist|, len, max, t) == 0
    ensures SetSum(Front(leaves, e, hist, t), Products(freq, len)) == Created(e, |hist|, freq, t)
    decreases |hist| - t
  {
    hide Front, IsHistory, SetSum, Products, Times;
    var u := Products(freq, len);
    if t == |hist| {
      SetSumOne(e + |hist| - 1, u);
      TimesZero(freq[e + |hist| - 1]);
    } else {
      UnclippedCost(leaves, e, hist, len, max, freq, t + 1);
      FrontSumStep(leaves, e, hist, t, u);
      Distribute(freq[hist[t].0], freq[hist[t].1], len[e + t]);
    }
  }

  /** Depths below the last node created. */
  ghost predicate IsDepth(e: int, hist: seq<Pair>, depth: seq<int>)
  {
    e >= 0 && |hist| > 0 && e + |hist| <= |depth| && depth[e + |hist| - 1] == 0 &&
    forall t :: 0 <= t < |hist| ==>
      0 <= hist[t].0 < |depth| && 0 <= hist[t].1 < |depth| && depth[hist[t].0] == depth[hist[t].1] == depth[e + t] + 1
  }

  ghost predicate AtMost(s: set<int>, depth: seq<int>, max: nat)
  {
    forall x :: x in s ==> 0 <= x < |depth| && depth[x] <= max
  }

  /** No leaf of the tree is deeper than max. */
  ghost predicate Shallow(leaves: set<int>, e: int, hist: seq<Pair>, max: nat)
  {
    exists depth :: IsDepth(e, hist, depth) && AtMost(leaves, depth, max)
  }

  /** If no leaf is deeper than max, every node created lies above depth max. */
  lemma {:induction false} InnerAbove(leaves: set<int>, e: nat, hist: seq<Pair>, depth: seq<int>, max: nat, t: nat)
    requires IsTree(leaves, e, hist) && t <= |hist| && IsDepth(e, hist, depth) && AtMost(leaves, depth, max)
    ensures AtMost(Front(leaves, e, hist, t), depth, max) && forall x :: e <= x < e + t ==> depth[x] < max
  {
    hide Front, IsHistory;
    if t == 0 {
      FrontNone(leaves, e, hist);
    } else {
      InnerAbove(leaves, e, hist, depth, max, t - 1);
      Step(leaves, e, hist, t - 1);
    }
  }

  /** Where nothing is clipped the clipped depths are the depths. */
  lemma {:induction false} SameDepths(leaves: set<int>, e: nat, hist: seq<Pair>, depth: seq<int>, len: seq<int>,
                                      max: nat, t: nat)
    requires IsTree(leaves, e, hist) && t <= |hist| && IsDepth(e, hist, depth) && IsClippedDepth(e, hist, len, max)
    requires forall x :: e <= x < e + |hist| ==> depth[x] < max
    ensures Clipped(e, |hist|, len, max, t) == 0
    ensures forall x :: x in Front(leaves, e, hist, t) && 0 <= x < |len| && x < |depth| ==> len[x] == depth[x]
    decreases |hist| - t
  {
    hide Front, IsHistory;
    if t < |hist| {
      SameDepths(leaves, e, hist, depth, len, max, t + 1);
      Step(leaves, e, hist, t);
      assert e + t in Front(leaves, e, hist, t + 1) && depth[e + t] < max;
      var s := Front(leaves, e, hist, t);
      assert forall x :: x in s ==> x == hist[t].0 || x == hist[t].1 || x in Front(leaves, e, hist, t + 1);
    }
  }

  lemma {:induction false} UnclippedDepths(e: nat, hist: seq<Pair>, len: seq<int>, max: nat, t: nat)
    requires e + |hist| <= |len| && t <= |hist| && Clipped(e, |hist|, len, max, t) == 0
    ensures forall x :: e + t <= x < e + |hist| ==> len[x] != max
    decreases |hist| - t
  {
    if t < |hist| { UnclippedDepths(e, hist, len, max, t + 1); }
  }

  lemma FrontNone(leaves: set<int>, e: int, hist: seq<Pair>)
    ensures Front(leaves, e, hist, 0) == leaves
  {
  }

  lemma UnclippedIsDepth(leaves: set<int>, e: nat, hist: seq<Pair>, len: seq<int>, max: nat)
    requires IsTree(leaves, e, hist) && IsClippedDepth(e, hist, len, max) && Clipped(e, |hist|, len, max, 0) == 0
    ensures Shallow(leaves, e, hist, max)
  {
    hide Front, IsHistory, Clipped;
    UnclippedDepths(e, hist, len, max, 0);
    FrontDepths(leaves, e, hist, len, max, 0);
    FrontNone(leaves, e, hist);
    assert IsDepth(e, hist, len) && AtMost(leaves, len, max);
  }

  /** Something is clipped exactly when some leaf is deeper than max. */
  lemma ClippedIffDeep(leaves: set<int>, e: nat, hist: seq<Pair>, len: seq<int>, max: nat)
    requires IsTree(leaves, e, hist) && IsClippedDepth(e, hist, len, max)
    ensures Clipped(e, |hist|, len, max, 0) == 0 <==> Shallow(leaves, e, hist, max)
  {
    hide Front, IsTree, IsDepth, AtMost, Clipped;
    if Clipped(e, |hist|, len, max, 0) == 0 {
      UnclippedIsDepth(leaves, e, hist, len, max);
    }
    if Shallow(leaves, e, hist, max) {
      var depth :| IsDepth(e, hist, depth) && AtMost(leaves, depth, max);
      InnerAbove(leaves, e, hist, depth, max, |hist|);
      SameDepths(leaves, e, hist, depth, len, max, 0);
    }
  }
}
