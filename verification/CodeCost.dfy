/** The number of bits a table of frequencies costs under a table of code lengths. */
module CodeCost {
  import opened Merges

  /** Frequency times bits (code plus extra), summed over the first n symbols that are in use. */
  ghost function BitCost(freq: seq<nat>, used: seq<nat>, lens: seq<nat>, extra: seq<nat>, n: nat): (c: int)
    requires n <= |freq| && n <= |used| && n <= |lens| && n <= |extra|
  {
    if n == 0 then 0
    else BitCost(freq, used, lens, extra, n - 1) + Term(freq[n - 1], used[n - 1], lens[n - 1], extra[n - 1])
  }

  ghost function Term(f: nat, u: nat, l: nat, x: nat): (c: int)
  {
    if u == 0 then 0 else Times(f, l + x)
  }

  lemma {:induction false} CostChange(freq: seq<nat>, used: seq<nat>, used': seq<nat>, lens: seq<nat>, lens': seq<nat>,
                                      extra: seq<nat>, n: nat, k: nat)
    requires n <= |freq| && n <= |used| && n <= |used'| && n <= |lens| && n <= |lens'| && n <= |extra|
    requires forall i :: 0 <= i < n && i != k ==> used[i] == used'[i] && lens[i] == lens'[i]
    ensures BitCost(freq, used', lens', extra, n) == BitCost(freq, used, lens, extra, n) +
              if k < n then Term(freq[k], used'[k], lens'[k], extra[k]) - Term(freq[k], used[k], lens[k], extra[k])
                else 0
  {
    hide Term;
    if n > 0 { CostChange(freq, used, used', lens, lens', extra, n - 1, k); }
  }

  lemma {:induction false} CostSame(freq: seq<nat>, freq': seq<nat>, used: seq<nat>, used': seq<nat>,
                                    lens: seq<nat>, lens': seq<nat>, extra: seq<nat>, extra': seq<nat>, n: nat)
    requires n <= |freq| && n <= |used| && n <= |lens| && n <= |extra|
    requires n <= |freq'| && n <= |used'| && n <= |lens'| && n <= |extra'|
    requires forall i :: 0 <= i < n ==>
      Term(freq[i], used[i], lens[i], extra[i]) == Term(freq'[i], used'[i], lens'[i], extra'[i])
    ensures BitCost(freq, used, lens, extra, n) == BitCost(freq', used', lens', extra', n)
  {
    hide Term;
    if n > 0 { CostSame(freq, freq', used, used', lens, lens', extra, extra', n - 1); }
  }

  /** One more occurrence of symbol k. */
  lemma {:induction false} CostMore(freq: seq<nat>, used: seq<nat>, lens: seq<nat>, extra: seq<nat>, n: nat, k: nat)
    requires n <= |freq| && n <= |used| && n <= |lens| && n <= |extra| && k < |freq|
    ensures BitCost(freq[k := freq[k] + 1], used, lens, extra, n) == BitCost(freq, used, lens, extra, n) +
              if k < n && used[k] != 0 then lens[k] + extra[k] else 0
  {
    if n > 0 {
      CostMore(freq, used, lens, extra, n - 1, k);
      if n - 1 == k { TimesMore(freq[k], lens[k] + extra[k]); }
    }
  }

  lemma TimesMore(f: int, b: int)
    ensures Times(f + 1, b) == Times(f, b) + b
  {
  }

  lemma {:induction false} CostZero(freq: seq<nat>, used: seq<nat>, lens: seq<nat>, extra: seq<nat>, n: nat)
    requires n <= |freq| && n <= |used| && n <= |lens| && n <= |extra|
    requires forall i :: 0 <= i < n ==> used[i] == 0
    ensures BitCost(freq, used, lens, extra, n) == 0
  {
    if n > 0 { CostZero(freq, used, lens, extra, n - 1); }
  }
}
