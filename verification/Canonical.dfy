/** Canonical Huffman codes as section 3.2.2 of RFC 1951 defines them, the Kraft
    sum of a table of code lengths, and the facts a decoder relies on: codes fit
    their lengths and no code is a prefix of another. */
module Canonical {
  import opened Bits

  /** How many of the first n symbols have length b. */
  function Count(lens: seq<nat>, b: nat, n: nat): (c: nat)
    requires n <= |lens|
  {
    if n == 0 then 0 else Count(lens, b, n - 1) + if lens[n - 1] == b then 1 else 0
  }

  /** How many symbols have a code of length b; length 0 means "no code". */
  function Used(lens: seq<nat>, b: nat): (c: nat)
  {
    if b == 0 then 0 else Count(lens, b, |lens|)
  }

  /** The smallest code of length b (step 2 of section 3.2.2). */
  function First(lens: seq<nat>, b: nat): (c: nat)
  {
    if b == 0 then 0 else 2 * (First(lens, b - 1) + Used(lens, b - 1))
  }

  /** The code of symbol s as a number (step 3 of section 3.2.2). */
  function CodeValue(lens: seq<nat>, s: nat): (c: nat)
    requires s < |lens|
  {
    First(lens, lens[s]) + Count(lens, lens[s], s)
  }

  /** The code of symbol s as transmitted: most significant bit first. */
  function CodeBits(lens: seq<nat>, s: nat): (b: seq<bool>)
    requires s < |lens|
    ensures |b| == lens[s]
  {
    Msb(CodeValue(lens, s), lens[s])
  }

  predicate Bounded(lens: seq<nat>, max: nat)
  {
    forall i :: 0 <= i < |lens| ==> lens[i] <= max
  }

  /** The share of code space taken by one symbol, in units of 2^-max. */
  function Unit(len: nat, max: nat): (u: nat)
    requires len <= max
  {
    if len == 0 then 0 else Pow2(max - len)
  }

  /** The Kraft sum of the first n lengths, in units of 2^-max. */
  function Kraft(lens: seq<nat>, max: nat, n: nat): (k: nat)
    requires n <= |lens| && Bounded(lens, max)
  {
    if n == 0 then 0 else Kraft(lens, max, n - 1) + Unit(lens[n - 1], max)
  }

  /** The Kraft sum from the number of codes of each length, by Horner's rule. */
  ghost function Horner(lens: seq<nat>, n: nat, b: nat): (k: nat)
    requires n <= |lens|
  {
    if b == 0 then 0 else 2 * Horner(lens, n, b - 1) + Count(lens, b, n)
  }

  lemma {:induction false} HornerStep(lens: seq<nat>, n: nat, b: nat)
    requires 0 < n <= |lens|
    ensures Horner(lens, n, b) == Horner(lens, n - 1, b) +
                                  if lens[n - 1] <= b then Unit(lens[n - 1], b) else 0
    decreases b
  {
    if b > 0 { HornerStep(lens, n, b - 1); }
  }

  lemma {:induction false} HornerZero(lens: seq<nat>, b: nat)
    ensures Horner(lens, 0, b) == 0
  {
    if b > 0 { HornerZero(lens, b - 1); }
  }

  lemma {:induction false} KraftIsHorner(lens: seq<nat>, max: nat, n: nat)
    requires n <= |lens| && Bounded(lens, max)
    ensures Kraft(lens, max, n) == Horner(lens, n, max)
  {
    if n == 0 {
      HornerZero(lens, max);
    } else {
      KraftIsHorner(lens, max, n - 1);
      HornerStep(lens, n, max);
    }
  }

  lemma {:induction false} FirstIsHorner(lens: seq<nat>, b: nat)
    ensures First(lens, b) + Used(lens, b) == Horner(lens, |lens|, b)
  {
    if b > 0 { FirstIsHorner(lens, b - 1); }
  }

  lemma {:induction false} HornerFits(lens: seq<nat>, b: nat, max: nat)
    requires b <= max
    requires Horner(lens, |lens|, max) <= Pow2(max)
    ensures Horner(lens, |lens|, b) <= Pow2(b)
    decreases max - b
  {
    if b < max {
      HornerFits(lens, b + 1, max);
      assert Horner(lens, |lens|, b + 1) == 2 * Horner(lens, |lens|, b) + Count(lens, b + 1, |lens|);
    }
  }

  /** If the Kraft sum is at most 1, the codes of every length b fit in b bits. */
  lemma CodesFit(lens: seq<nat>, max: nat, b: nat)
    requires Bounded(lens, max) && b <= max
    requires Kraft(lens, max, |lens|) <= Pow2(max)
    ensures First(lens, b) + Used(lens, b) <= Pow2(b)
  {
    KraftIsHorner(lens, max, |lens|);
    HornerFits(lens, b, max);
    FirstIsHorner(lens, b);
  }

  lemma {:induction false} CountMono(lens: seq<nat>, b: nat, m: nat, n: nat)
    requires m <= n <= |lens|
    ensures Count(lens, b, m) <= Count(lens, b, n)
    ensures m < n && lens[m] == b ==> Count(lens, b, m) < Count(lens, b, n)
    decreases n
  {
    if m < n { CountMono(lens, b, m, n - 1); }
  }

  lemma CodeBelow(lens: seq<nat>, s: nat)
    requires s < |lens| && lens[s] > 0
    ensures CodeValue(lens, s) < First(lens, lens[s]) + Used(lens, lens[s])
  {
    CountMono(lens, lens[s], s, |lens|);
  }

  lemma CodeFits(lens: seq<nat>, max: nat, s: nat)
    requires Bounded(lens, max) && s < |lens| && lens[s] > 0
    requires Kraft(lens, max, |lens|) <= Pow2(max)
    ensures CodeValue(lens, s) < Pow2(lens[s])
  {
    CodeBelow(lens, s);
    CodesFit(lens, max, lens[s]);
  }

  /** Codes of length a, extended to length b, stay below the first code of length b. */
  lemma {:induction false} FirstAbove(lens: seq<nat>, a: nat, b: nat)
    requires 0 < a < b
    ensures Shr(First(lens, b), b - a) >= First(lens, a) + Used(lens, a)
    decreases b
  {
    ShrEven(First(lens, b - 1) + Used(lens, b - 1), b - a);
    if a + 1 < b {
      FirstAbove(lens, a, b - 1);
      ShrMono(First(lens, b - 1), First(lens, b - 1) + Used(lens, b - 1), b - 1 - a);
    }
  }

  lemma ShrEven(v: nat, k: nat)
    requires k > 0
    ensures Shr(2 * v, k) == Shr(v, k - 1)
  {
  }

  lemma {:induction false} ShrMono(v: nat, w: nat, k: nat)
    requires v <= w
    ensures Shr(v, k) <= Shr(w, k)
    decreases k
  {
    if k > 0 { ShrMono(v / 2, w / 2, k - 1); }
  }

  lemma {:induction false} MsbPrefix(v: nat, a: nat, b: nat)
    requires a <= b
    ensures Msb(v, b)[..a] == Msb(Shr(v, b - a), a)
    decreases b
  {
    if a < b {
      MsbPrefix(v / 2, a, b - 1);
      assert Msb(v, b)[..a] == Msb(v / 2, b - 1)[..a];
    }
  }

  lemma {:induction false} MsbInjective(v: nat, w: nat, n: nat)
    requires v < Pow2(n) && w < Pow2(n) && Msb(v, n) == Msb(w, n)
    ensures v == w
    decreases n
  {
    if n > 0 {
      var x, y := Msb(v, n), Msb(w, n);
      assert x[..n - 1] == Msb(v / 2, n - 1) && y[..n - 1] == Msb(w / 2, n - 1);
      assert x[n - 1] == (v % 2 == 1) && y[n - 1] == (w % 2 == 1);
      MsbInjective(v / 2, w / 2, n - 1);
    }
  }

  lemma CodesDiffer(lens: seq<nat>, s: nat, t: nat)
    requires s < t < |lens| && lens[s] == lens[t]
    ensures CodeValue(lens, s) < CodeValue(lens, t)
  {
    CountMono(lens, lens[s], s, t);
  }

  lemma ShorterIsBelow(lens: seq<nat>, s: nat, t: nat)
    requires s < |lens| && t < |lens| && 0 < lens[s] < lens[t]
    ensures CodeValue(lens, s) < Shr(CodeValue(lens, t), lens[t] - lens[s])
  {
    CodeBelow(lens, s);
    FirstAbove(lens, lens[s], lens[t]);
    ShrMono(First(lens, lens[t]), CodeValue(lens, t), lens[t] - lens[s]);
  }

  /** No code is a prefix of the code of another symbol. */
  lemma PrefixFree(lens: seq<nat>, max: nat, s: nat, t: nat)
    requires Bounded(lens, max) && Kraft(lens, max, |lens|) <= Pow2(max)
    requires s < |lens| && t < |lens| && s != t && lens[s] > 0 && lens[t] > 0
    ensures !(CodeBits(lens, s) <= CodeBits(lens, t))
  {
    var a, b := lens[s], lens[t];
    var x, y := CodeValue(lens, s), CodeValue(lens, t);
    if a < b {
      ShorterIsBelow(lens, s, t);
    } else if a == b {
      CodesDiffer(lens, if s < t then s else t, if s < t then t else s);
    }
    if a <= b {
      CodeFits(lens, max, s);
      CodeFits(lens, max, t);
      ShrSmall(y, b - a, a);
      PrefixIsShift(x, a, y, b);
    }
  }

  lemma PrefixIsShift(x: nat, a: nat, y: nat, b: nat)
    requires a <= b && x < Pow2(a) && Shr(y, b - a) < Pow2(a)
    ensures Msb(x, a) <= Msb(y, b) ==> x == Shr(y, b - a)
  {
    MsbPrefix(y, a, b);
    if Msb(x, a) <= Msb(y, b) {
      MsbInjective(x, Shr(y, b - a), a);
    }
  }
}
