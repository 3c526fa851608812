/** Kraft's inequality: the lengths of any prefix-free binary code compete with those of build_tree. */
module PrefixCodes {
  import opened Bits
  import opened Canonical
  import BuildTree

  /** A code word for some of the symbols. */
  type Code = seq<Option<seq<bool>>>

  ghost predicate PrefixFree(c: Code)
  {
    forall i, j :: 0 <= i < |c| && 0 <= j < |c| && i != j && c[i].Some? && c[j].Some? ==> !(c[i].value <= c[j].value)
  }

  ghost predicate AtMost(c: Code, max: nat)
  {
    forall i :: 0 <= i < |c| && c[i].Some? ==> |c[i].value| <= max
  }

  /** The share of all words of length max that start with one of the first n code words. */
  ghost function Share(c: Code, max: nat, n: nat): (k: nat)
    requires n <= |c| && AtMost(c, max)
  {
    if n == 0 then 0 else Share(c, max, n - 1) + if c[n - 1].Some? then Pow2(max - |c[n - 1].value|) else 0
  }

  /** The code words that start with b, without it. */
  ghost function Below(c: Code, b: bool): (r: Code)
    ensures |r| == |c|
    ensures forall i :: 0 <= i < |c| ==>
      r[i] == if c[i].Some? && c[i].value != [] && c[i].value[0] == b then Some(c[i].value[1..]) else None
  {
    seq(|c|, i requires 0 <= i < |c| => if c[i].Some? && c[i].value != [] && c[i].value[0] == b
      then Some(c[i].value[1..]) else None)
  }

  lemma BelowFree(c: Code, b: bool)
    requires PrefixFree(c)
    ensures PrefixFree(Below(c, b))
  {
    var r := Below(c, b);
    forall i, j | 0 <= i < |r| && 0 <= j < |r| && i != j && r[i].Some? && r[j].Some?
      ensures !(r[i].value <= r[j].value) {
      assert c[i].value == [b] + r[i].value && c[j].value == [b] + r[j].value;
    }
  }

  lemma {:induction false} ShareSplits(c: Code, max: nat, n: nat)
    requires n <= |c| && max > 0 && AtMost(c, max) && forall i :: 0 <= i < n ==> c[i] != Some([])
    ensures AtMost(Below(c, false), max - 1) && AtMost(Below(c, true), max - 1)
    ensures Share(c, max, n) == Share(Below(c, false), max - 1, n) + Share(Below(c, true), max - 1, n)
  {
    if n > 0 { ShareSplits(c, max, n - 1); }
  }

  lemma {:induction false} ShareNone(c: Code, max: nat, n: nat)
    requires n <= |c| && AtMost(c, max) && forall i :: 0 <= i < n ==> c[i].None?
    ensures Share(c, max, n) == 0
  {
    if n > 0 { ShareNone(c, max, n - 1); }
  }

  /** If the empty word is a code word it is the only one. */
  lemma {:induction false} ShareEmptyWord(c: Code, max: nat, e: nat, n: nat)
    requires n <= |c| && e < |c| && AtMost(c, max) && PrefixFree(c) && c[e] == Some([])
    ensures Share(c, max, n) <= Pow2(max)
  {
    assert forall i :: 0 <= i < |c| && i != e && c[i].Some? ==> c[e].value <= c[i].value;
    if n > 0 {
      if n - 1 == e { ShareNone(c, max, n - 1); } else { ShareEmptyWord(c, max, e, n - 1); }
    }
  }

  lemma {:induction false} KraftInequality(c: Code, max: nat)
    requires PrefixFree(c) && AtMost(c, max)
    ensures Share(c, max, |c|) <= Pow2(max)
    decreases max
  {
    hide PrefixFree, Share;
    if e :| 0 <= e < |c| && c[e] == Some([]) {
      ShareEmptyWord(c, max, e, |c|);
    } else if max == 0 {
      ShareNone(c, max, |c|);
    } else {
      ShareSplits(c, max, |c|);
      BelowFree(c, false);
      BelowFree(c, true);
      KraftInequality(Below(c, false), max - 1);
      KraftInequality(Below(c, true), max - 1);
    }
  }

  /** The code lengths; 0 for a symbol without a code word. */
  ghost function Lengths(c: Code): (l: seq<nat>)
    ensures |l| == |c| && forall i :: 0 <= i < |c| ==> l[i] == if c[i].Some? then |c[i].value| else 0
  {
    seq(|c|, i requires 0 <= i < |c| => if c[i].Some? then |c[i].value| else 0)
  }

  lemma {:induction false} KraftIsShare(c: Code, max: nat, n: nat)
    requires n <= |c| && AtMost(c, max) && forall i :: 0 <= i < |c| ==> c[i] != Some([])
    ensures Bounded(Lengths(c), max) && Kraft(Lengths(c), max, n) == Share(c, max, n)
  {
    if n > 0 { KraftIsShare(c, max, n - 1); }
  }

  /** c is a prefix code for the symbols that occur, at least two of them. */
  ghost predicate CodesAll(freq: seq<nat>, c: Code, max: nat)
  {
    |c| == |freq| && PrefixFree(c) && AtMost(c, max) && (forall n :: 0 <= n < |freq| && freq[n] != 0 ==> c[n].Some?) &&
    exists a, b :: 0 <= a < b < |freq| && freq[a] != 0 && freq[b] != 0
  }

  lemma PrefixCodeCompetes(freq: seq<nat>, c: Code, max: nat)
    requires CodesAll(freq, c, max)
    ensures BuildTree.Competes(freq, Lengths(c), max)
  {
    hide Kraft, Share;
    var a, b :| 0 <= a < b < |freq| && freq[a] != 0 && freq[b] != 0;
    forall i | 0 <= i < |c| ensures c[i] != Some([]) {
      var other := if i == a then b else a;
      assert c[other].Some?;
    }
    KraftInequality(c, max);
    KraftIsShare(c, max, |c|);
  }

  /** Lengths that are best among all that respect the Kraft inequality are best among all prefix codes. */
  lemma BestPrefixCode(freq: seq<nat>, lens: seq<nat>, c: Code, max: nat)
    requires BuildTree.Cheapest(freq, lens) && CodesAll(freq, c, max)
    ensures BuildTree.WeightedLength(freq, lens, |freq|) <= BuildTree.WeightedLength(freq, Lengths(c), |freq|)
  {
    hide BuildTree.WeightedLength, BuildTree.Competes;
    PrefixCodeCompetes(freq, c, max);
  }
}
