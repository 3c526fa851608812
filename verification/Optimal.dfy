/** Joining the two lightest roots at every step is optimal: no assignment of
    code lengths that respects the Kraft inequality costs less. */
module Optimal {
  import opened Bits
  import opened Sums
  import opened Merges

  /** The two nodes joined at each step are the lightest of the forest. */
  ghost predicate Greedy(leaves: set<int>, e: int, hist: seq<Pair>, freq: seq<int>)
  {
    forall t :: 0 <= t < |hist| ==> Lightest(Front(leaves, e, hist, t), hist[t].0, hist[t].1, freq)
  }

  ghost predicate Lightest(s: set<int>, a: int, b: int, freq: seq<int>)
  {
    0 <= a < |freq| && 0 <= b < |freq| &&
    (forall z :: z in s && 0 <= z < |freq| ==> freq[a] <= freq[z]) &&
    (forall z :: z in s && z != a && 0 <= z < |freq| ==> freq[b] <= freq[z])
  }

  /** Lengths between 0 and max on s whose Kraft sum is at most 1. */
  ghost predicate Feasible(s: set<int>, len: seq<int>, max: nat)
  {
    DepthsIn(s, len, max) && SetSum(s, Spaces(len, max)) <= Pow2(max)
  }

  /** Weight times length, summed over s. */
  ghost function Cost(s: set<int>, freq: seq<int>, len: seq<int>): (c: int)
    requires |freq| == |len|
  {
    SetSum(s, Products(freq, len))
  }

  lemma RelengthSpace(s: set<int>, len: seq<int>, max: nat, x: int, v: nat)
    requires x in s && DepthsIn(s, len, max) && v <= max
    ensures DepthsIn(s, len[x := v], max)
    ensures SetSum(s, Spaces(len[x := v], max)) == SetSum(s, Spaces(len, max)) + Pow2(max - v) - Pow2(max - len[x])
  {
    hide SetSum, SetSumTo, Spaces, Pow2;
    var f, g := Spaces(len, max), Spaces(len[x := v], max);
    SpacesAgree(len, max, x, v);
    SetSumChange(s, f, g, x);
  }

  lemma SpacesAgree(len: seq<int>, max: nat, x: int, v: int)
    requires 0 <= x < |len|
    ensures forall z :: 0 <= z < |len| && z != x ==> Spaces(len, max)[z] == Spaces(len[x := v], max)[z]
  {
  }

  lemma RelengthCost(s: set<int>, len: seq<int>, freq: seq<int>, x: int, v: int)
    requires x in s && 0 <= x < |len| == |freq|
    ensures Cost(s, freq, len[x := v]) == Cost(s, freq, len) + Times(freq[x], v) - Times(freq[x], len[x])
  {
    hide SetSum, Products, Times;
    SetSumChange(s, Products(freq, len), Products(freq, len[x := v]), x);
  }

  /** Giving the longer length to the lighter of two nodes does not cost more. */
  lemma Exchange(s: set<int>, len: seq<int>, max: nat, freq: seq<int>, a: int, x: int)
    requires a in s && x in s && a != x && Feasible(s, len, max) && |freq| == |len|
    requires 0 <= a < |len| && 0 <= x < |len| && len[a] <= len[x] && freq[a] <= freq[x]
    ensures var len' := len[a := len[x]][x := len[a]];
            Feasible(s, len', max) && Cost(s, freq, len') <= Cost(s, freq, len)
  {
    hide SetSum, Pow2, Times, Spaces, Cost;
    var len1 := len[a := len[x]];
    RelengthSpace(s, len, max, a, len[x]);
    RelengthSpace(s, len1, max, x, len[a]);
    RelengthCost(s, len, freq, a, len[x]);
    RelengthCost(s, len1, freq, x, len[a]);
    SwapGain(freq[a], freq[x], len[a], len[x]);
  }

  lemma SwapGain(fa: int, fx: int, la: int, lx: int)
    requires fa <= fx && la <= lx
    ensures Times(fa, lx) + Times(fx, la) <= Times(fa, la) + Times(fx, lx)
  {
    assert (fx - fa) * (lx - la) >= 0;
    assert (fx - fa) * (lx - la) == fx * lx - fx * la - fa * lx + fa * la;
  }

  /** Nodes shorter than max take an even number of units. */
  lemma ShorterEven(s: set<int>, len: seq<int>, max: nat)
    requires DepthsIn(s, len, max) && forall z :: z in s ==> len[z] != max
    ensures SetSum(s, Spaces(len, max)) % 2 == 0
  {
    var f := Spaces(len, max);
    forall z | 0 <= z < |f| && z in s ensures f[z] % 2 == 0 { SplitSpace(max, len[z]); }
    SetSumEvenTo(s, f, |f|);
  }

  /** If no length reaches max, max - 1 serves as well. */
  lemma LowerMax(s: set<int>, len: seq<int>, max: nat)
    requires max > 0 && Feasible(s, len, max) && forall z :: z in s ==> 0 <= z < |len| && len[z] != max
    ensures Feasible(s, len, max - 1)
  {
    var f, g := Spaces(len, max), Spaces(len, max - 1);
    forall z | 0 <= z < |f| && z in s ensures f[z] == 2 * g[z] { SplitSpace(max, len[z]); }
    SetSumDoubleTo(s, f, g, |f|);
  }

  lemma SmallSpaces(max: nat)
    requires max > 0
    ensures Pow2(max - max) == 1 && Pow2(max - (max - 1)) == 2 && Pow2(max) % 2 == 0
  {
    assert Pow2(1) == 2;
  }

  lemma TimesLess(f: int, d: int)
    requires f >= 0
    ensures Times(f, d) <= Times(f, d + 1)
  {
    assert f * (d + 1) == f * d + f;
  }

  /** If only x has length max, it can be shortened. */
  lemma ShortenOne(s: set<int>, len: seq<int>, max: nat, freq: seq<int>, x: int)
    requires max > 0 && Feasible(s, len, max) && |freq| == |len| && 0 <= x < |len| && freq[x] >= 0
    requires x in s && len[x] == max && forall z :: z in s && z != x ==> 0 <= z < |len| && len[z] != max
    ensures var len' := len[x := max - 1];
            Feasible(s, len', max) && Cost(s, freq, len') <= Cost(s, freq, len) &&
            SetSum(s, len') == SetSum(s, len) - 1
  {
    hide SetSum, Times, Pow2, Spaces, Cost;
    RelengthSpace(s, len, max, x, max - 1);
    RelengthCost(s, len, freq, x, max - 1);
    SetSumChange(s, len, len[x := max - 1], x);
    SetSumRemove(s, Spaces(len, max), x);
    ShorterEven(s - {x}, len, max);
    SmallSpaces(max);
    TimesLess(freq[x], max - 1);
  }

  /** Give the maximal length, shared by x and y, to the two lightest nodes. */
  lemma BringDown(s: set<int>, len: seq<int>, max: nat, freq: seq<int>, a: int, b: int, x: int, y: int)
    returns (len': seq<int>)
    requires Feasible(s, len, max) && |freq| == |len| && (forall z :: z in s ==> 0 <= z < |len|)
    requires a in s && b in s && a != b && Lightest(s, a, b, freq)
    requires x in s && y in s && x != y && len[x] == max && len[y] == max
    ensures |len'| == |len| && Feasible(s, len', max) && len'[a] == max && len'[b] == max
    ensures Cost(s, freq, len') <= Cost(s, freq, len)
  {
    hide SetSum, Pow2, Cost, Spaces;
    var z; // a second node of length max, beside a
    if len[a] == max {
      len', z := len, if x != a then x else y;
    } else {
      var x' := if x != b then x else y;
      Exchange(s, len, max, freq, a, x');
      len' := len[a := len[x']][x' := len[a]];
      z := if x != b then y else x;
    }
    if len'[b] != max {
      Exchange(s, len', max, freq, b, z);
      len' := len'[b := len'[z]][z := len'[b]];
    }
  }

  /** Joining two nodes of length max. */
  lemma Join(s: set<int>, len: seq<int>, max: nat, freq: seq<int>, a: int, b: int, c: int)
    requires a in s && b in s && a != b && c !in s && 0 <= c < |len| == |freq|
    requires max > 0 && Feasible(s, len, max) && (forall z :: z in s ==> 0 <= z < |len|)
    requires len[a] == max && len[b] == max && freq[c] == freq[a] + freq[b]
    ensures var len', s' := len[c := max - 1], s - {a} - {b} + {c};
            Feasible(s', len', max) && Cost(s', freq, len') == Cost(s, freq, len) - freq[c]
  {
    JoinSpace(s, len, max, a, b, c);
    JoinCost(s, len, max, freq, a, b, c);
  }

  lemma JoinSpace(s: set<int>, len: seq<int>, max: nat, a: int, b: int, c: int)
    requires a in s && b in s && a != b && c !in s && 0 <= c < |len|
    requires max > 0 && Feasible(s, len, max) && (forall z :: z in s ==> 0 <= z < |len|)
    requires len[a] == max && len[b] == max
    ensures Feasible(s - {a} - {b} + {c}, len[c := max - 1], max)
  {
    hide SetSum, Pow2, Spaces;
    var len' := len[c := max - 1];
    SpacesAgree(len, max, c, max - 1);
    SetSumSame(s, Spaces(len, max), Spaces(len', max));
    JoinSum(s, a, b, c, Spaces(len', max));
    SmallSpaces(max);
  }

  lemma JoinCost(s: set<int>, len: seq<int>, max: nat, freq: seq<int>, a: int, b: int, c: int)
    requires a in s && b in s && a != b && c !in s && 0 <= c < |len| == |freq|
    requires max > 0 && (forall z :: z in s ==> 0 <= z < |len|)
    requires len[a] == max && len[b] == max && freq[c] == freq[a] + freq[b]
    ensures Cost(s - {a} - {b} + {c}, freq, len[c := max - 1]) == Cost(s, freq, len) - freq[c]
  {
    hide SetSum, Times, Products;
    var len' := len[c := max - 1];
    SetSumSame(s, Products(freq, len), Products(freq, len'));
    JoinSum(s, a, b, c, Products(freq, len'));
    Distribute(freq[a], freq[b], max - 1);
  }

  lemma TooMany(s: set<int>, len: seq<int>, a: int, b: int)
    requires a in s && b in s && a != b && DepthsIn(s, len, 0)
    ensures SetSum(s, Spaces(len, 0)) >= 2
  {
    hide SetSum, Spaces;
    var u := Spaces(len, 0);
    SetSumRemove(s, u, a);
    SetSumRemove(s - {a}, u, b);
    SetSumNonNeg(s - {a} - {b}, u);
  }

  lemma Members(leaves: set<int>, e: nat, hist: seq<Pair>, t: nat, n: nat)
    requires IsHistory(leaves, e, hist) && t <= |hist| && e + |hist| <= n
    ensures forall z :: z in Front(leaves, e, hist, t) ==> 0 <= z < n
  {
    FrontBelow(leaves, e, hist, t);
  }

  lemma CreatedStep(e: nat, k: nat, freq: seq<int>, t: nat)
    requires t < k && e + k <= |freq|
    ensures Created(e, k, freq, t) == freq[e + t] + Created(e, k, freq, t + 1)
  {
  }

  lemma RootBound(r: int, freq: seq<int>, len: seq<int>, max: nat)
    requires 0 <= r < |freq| == |len| && freq[r] >= 0 && Feasible({r}, len, max)
    ensures Cost({r}, freq, len) >= 0
  {
    hide SetSum, Times;
    SetSumOne(r, Products(freq, len));
    assert r in {r};
    TimesNonNegative(freq[r], len[r]);
  }

  lemma TimesNonNegative(a: int, b: int)
    requires a >= 0 && b >= 0
    ensures Times(a, b) >= 0
  {
  }

  /** No feasible lengths for the forest after t steps cost less than the nodes created from then on. */
  lemma {:induction false} LowerBound(leaves: set<int>, e: nat, hist: seq<Pair>, freq: seq<int>,
                                      len: seq<int>, max: nat, t: nat)
    requires IsTree(leaves, e, hist) && t <= |hist| && |freq| == |len|
    requires AddsUp(e, hist, freq) && Greedy(leaves, e, hist, freq)
    requires forall x :: 0 <= x < |freq| ==> freq[x] >= 0
    requires Feasible(Front(leaves, e, hist, t), len, max)
    ensures Cost(Front(leaves, e, hist, t), freq, len) >= Created(e, |hist|, freq, t)
    decreases |hist| - t, max, SetSum(Front(leaves, e, hist, t), len)
  {
    hide SetSum, Pow2, Front, IsHistory, Created, Cost, Spaces;
    var s := Front(leaves, e, hist, t);
    if t == |hist| {
      RootBound(e + |hist| - 1, freq, len, max);
      NothingCreated(e, |hist|, freq);
    } else {
      Step(leaves, e, hist, t);
      Members(leaves, e, hist, t, |len|);
      var a, b := hist[t].0, hist[t].1;
      if max == 0 {
        TooMany(s, len, a, b);
        Pow2Zero();
        assert false;
      } else if forall z :: z in s ==> len[z] != max {
        LowerMax(s, len, max);
        LowerBound(leaves, e, hist, freq, len, max - 1, t);
      } else {
        var x :| x in s && len[x] == max;
        if forall z :: z in s && z != x ==> len[z] != max {
          ShortenOne(s, len, max, freq, x);
          SetSumNonNeg(s, len[x := max - 1]);
          LowerBound(leaves, e, hist, freq, len[x := max - 1], max, t);
        } else {
          var y :| y in s && y != x && len[y] == max;
          var len' := BringDown(s, len, max, freq, a, b, x, y);
          Join(s, len', max, freq, a, b, e + t);
          LowerBound(leaves, e, hist, freq, len'[e + t := max - 1], max, t + 1);
          CreatedStep(e, |hist|, freq, t);
        }
      }
    }
  }

  lemma NothingCreated(e: nat, k: nat, freq: seq<int>)
    requires e + k <= |freq|
    ensures Created(e, k, freq, k) == 0
  {
  }
}
