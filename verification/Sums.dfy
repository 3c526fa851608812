/** Sums over a sequence of integers, and over those positions that belong to a set. */
module Sums {

  ghost function SumTo(f: seq<int>, n: nat): (s: int)
    requires n <= |f|
  {
    if n == 0 then 0 else SumTo(f, n - 1) + f[n - 1]
  }

  ghost function SetSumTo(s: set<int>, f: seq<int>, n: nat): (r: int)
    requires n <= |f|
  {
    if n == 0 then 0 else SetSumTo(s, f, n - 1) + if n - 1 in s then f[n - 1] else 0
  }

  /** The sum of f[x] over the members x of s. */
  ghost function SetSum(s: set<int>, f: seq<int>): (r: int)
  {
    SetSumTo(s, f, |f|)
  }

  /** If s' has x in addition to s, and the terms agree elsewhere, the sums differ by the term of x. */
  lemma {:induction false} SetSumPointTo(s: set<int>, s': set<int>, f: seq<int>, g: seq<int>, x: int, n: nat)
    requires n <= |f| == |g| && 0 <= x < |f|
    requires forall z :: 0 <= z < n && z != x ==> (z in s <==> z in s') && (z in s ==> f[z] == g[z])
    ensures SetSumTo(s', g, n) ==
            SetSumTo(s, f, n) + if x < n then (if x in s' then g[x] else 0) - (if x in s then f[x] else 0) else 0
  {
    if n > 0 { SetSumPointTo(s, s', f, g, x, n - 1); }
  }

  lemma SetSumAdd(s: set<int>, f: seq<int>, x: int)
    requires 0 <= x < |f| && x !in s
    ensures SetSum(s + {x}, f) == SetSum(s, f) + f[x]
  {
    SetSumPointTo(s, s + {x}, f, f, x, |f|);
  }

  lemma SetSumRemove(s: set<int>, f: seq<int>, x: int)
    requires 0 <= x < |f| && x in s
    ensures SetSum(s - {x}, f) == SetSum(s, f) - f[x]
  {
    SetSumPointTo(s, s - {x}, f, f, x, |f|);
  }

  /** Changing the term of a member. */
  lemma SetSumChange(s: set<int>, f: seq<int>, g: seq<int>, x: int)
    requires |f| == |g| && 0 <= x < |f| && x in s
    requires forall z :: 0 <= z < |f| && z != x ==> f[z] == g[z]
    ensures SetSum(s, g) == SetSum(s, f) + g[x] - f[x]
  {
    SetSumPointTo(s, s, f, g, x, |f|);
  }

  lemma {:induction false} SetSumSameTo(s: set<int>, f: seq<int>, g: seq<int>, n: nat)
    requires n <= |f| && n <= |g|
    requires forall z :: 0 <= z < n && z in s ==> f[z] == g[z]
    ensures SetSumTo(s, f, n) == SetSumTo(s, g, n)
  {
    if n > 0 { SetSumSameTo(s, f, g, n - 1); }
  }

  lemma SetSumSame(s: set<int>, f: seq<int>, g: seq<int>)
    requires |f| == |g| && forall z :: 0 <= z < |f| && z in s ==> f[z] == g[z]
    ensures SetSum(s, f) == SetSum(s, g)
  {
    SetSumSameTo(s, f, g, |f|);
  }

  lemma {:induction false} SetSumEmptyTo(f: seq<int>, n: nat)
    requires n <= |f|
    ensures SetSumTo({}, f, n) == 0
  {
    if n > 0 { SetSumEmptyTo(f, n - 1); }
  }

  lemma SetSumOne(x: int, f: seq<int>)
    requires 0 <= x < |f|
    ensures SetSum({x}, f) == f[x]
  {
    SetSumEmptyTo(f, |f|);
    SetSumAdd({}, f, x);
    assert {} + {x} == {x};
  }

  lemma {:induction false} SetSumNonNegTo(s: set<int>, f: seq<int>, n: nat)
    requires n <= |f| && forall z :: 0 <= z < n && z in s ==> f[z] >= 0
    ensures SetSumTo(s, f, n) >= 0
  {
    if n > 0 { SetSumNonNegTo(s, f, n - 1); }
  }

  lemma SetSumNonNeg(s: set<int>, f: seq<int>)
    requires forall z :: 0 <= z < |f| && z in s ==> f[z] >= 0
    ensures SetSum(s, f) >= 0
  {
    SetSumNonNegTo(s, f, |f|);
  }

  lemma {:induction false} SetSumEvenTo(s: set<int>, f: seq<int>, n: nat)
    requires n <= |f| && forall z :: 0 <= z < n && z in s ==> f[z] % 2 == 0
    ensures SetSumTo(s, f, n) % 2 == 0
  {
    if n > 0 { SetSumEvenTo(s, f, n - 1); }
  }

  lemma {:induction false} SetSumDoubleTo(s: set<int>, f: seq<int>, g: seq<int>, n: nat)
    requires n <= |f| == |g| && forall z :: 0 <= z < n && z in s ==> f[z] == 2 * g[z]
    ensures SetSumTo(s, f, n) == 2 * SetSumTo(s, g, n)
  {
    if n > 0 { SetSumDoubleTo(s, f, g, n - 1); }
  }

  /** Replacing members a and b by c. */
  lemma JoinSum(s: set<int>, a: int, b: int, c: int, f: seq<int>)
    requires a in s && b in s && a != b && c !in s && 0 <= a < |f| && 0 <= b < |f| && 0 <= c < |f|
    ensures SetSum(s, f) + f[c] == SetSum(s - {a} - {b} + {c}, f) + f[a] + f[b]
  {
    hide SetSum;
    SetSumRemove(s, f, a);
    SetSumRemove(s - {a}, f, b);
    SetSumAdd(s - {a} - {b}, f, c);
  }
}
