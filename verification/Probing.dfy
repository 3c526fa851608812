/** Double hashing with a prime table size: stepping down by a fixed amount visits every slot. */
module Probing {

  ghost predicate Prime(p: nat)
  {
    p >= 2 && forall m :: 2 <= m < p ==> p % m != 0
  }

  /** The next slot, as the hash tables of dpkg.c step. */
  function Down(a: int, d: nat, p: nat): (r: int)
  {
    if a - d < 0 then a - d + p else a - d
  }

  /** The slot after k steps. */
  ghost function Probe(a: nat, d: nat, p: nat, k: nat): (r: nat)
    requires a < p && 1 <= d < p
    ensures r < p
  {
    if k == 0 then a else Down(Probe(a, d, p, k - 1), d, p)
  }

  /** How far k steps go: k * d, reduced modulo p. */
  ghost function Offset(d: nat, p: nat, k: nat): (r: nat)
    requires 1 <= d < p
    ensures r < p
  {
    if k == 0 then 0 else
    var o := Offset(d, p, k - 1) + d;
    if o >= p then o - p else o
  }

  lemma {:induction false} ProbeOffset(a: nat, d: nat, p: nat, k: nat)
    requires a < p && 1 <= d < p
    ensures Probe(a, d, p, k) == if a >= Offset(d, p, k) then a - Offset(d, p, k) else a + p - Offset(d, p, k)
  {
    if k > 0 { ProbeOffset(a, d, p, k - 1); }
  }

  lemma {:induction false} OffsetAdd(d: nat, p: nat, j: nat, k: nat)
    requires 1 <= d < p
    ensures var o := Offset(d, p, j) + Offset(d, p, k); Offset(d, p, j + k) == if o >= p then o - p else o
    decreases k
  {
    if k > 0 { OffsetAdd(d, p, j, k - 1); }
  }

  ghost function Wraps(d: nat, p: nat, k: nat): (q: nat)
    requires 1 <= d < p
  {
    if k == 0 then 0 else Wraps(d, p, k - 1) + if Offset(d, p, k - 1) + d >= p then 1 else 0
  }

  lemma {:induction false} OffsetIs(d: nat, p: nat, k: nat)
    requires 1 <= d < p
    ensures k * d == Offset(d, p, k) + p * Wraps(d, p, k)
  {
    if k > 0 {
      OffsetIs(d, p, k - 1);
      assert k * d == (k - 1) * d + d;
      assert p * (Wraps(d, p, k - 1) + 1) == p * Wraps(d, p, k - 1) + p;
    }
  }

  lemma WholeRound(d: nat, p: nat)
    requires 1 <= d < p
    ensures Offset(d, p, p) == 0
  {
    OffsetIs(d, p, p);
    NoRemainder(p, d, Wraps(d, p, p), Offset(d, p, p));
  }

  /** A remainder below m that makes two multiples of m differ is 0. */
  lemma NoRemainder(m: nat, a: int, b: int, r: nat)
    requires m * a == m * b + r && r < m
    ensures r == 0 && a == b
  {
    assert m * (a - b) == r;
    if a - b >= 1 { Scale(m, 1, a - b); }
    if a - b <= -1 { Scale(m, a - b, -1); }
  }

  lemma Scale(m: nat, a: int, b: int)
    requires a <= b
    ensures m * a <= m * b
  {
  }

  /** The least number of steps that leads back. */
  ghost function Period(d: nat, p: nat, m: nat): (r: nat)
    requires 1 <= d < p && 1 <= m <= p
    requires forall j :: 1 <= j < m ==> Offset(d, p, j) != 0
    ensures 1 <= r <= p && Offset(d, p, r) == 0 && forall j :: 1 <= j < r ==> Offset(d, p, j) != 0
    decreases p - m
  {
    WholeRound(d, p);
    if Offset(d, p, m) == 0 then m else Period(d, p, m + 1)
  }

  /** Whatever leads back is a multiple of the period. */
  lemma {:induction false} PeriodDivides(d: nat, p: nat, m: nat, n: nat)
    requires 1 <= d < p && 1 <= m && Offset(d, p, m) == 0 && Offset(d, p, n) == 0
    requires forall j :: 1 <= j < m ==> Offset(d, p, j) != 0
    ensures n % m == 0
    decreases n
  {
    if n >= m {
      OffsetAdd(d, p, m, n - m);
      PeriodDivides(d, p, m, n - m);
      Remainder(n, m);
    }
  }

  lemma Remainder(n: nat, m: nat)
    requires 1 <= m <= n && (n - m) % m == 0
    ensures n % m == 0
  {
    var q := (n - m) / m;
    assert n == m * q + m;
    assert m * (q + 1) == m * q + m;
    MultipleMod(m, q + 1);
  }

  lemma MultipleMod(m: nat, q: nat)
    requires m >= 1
    ensures (m * q) % m == 0
  {
    var x := m * q;
    var c, r := x / m, x % m;
    assert x == m * c + r;
    NoRemainder(m, q, c, r);
  }

  /** With a prime table size, no slot comes twice in p steps. */
  lemma ProbesDiffer(a: nat, d: nat, p: nat, j: nat, k: nat)
    requires Prime(p) && a < p && 1 <= d < p && j < k < p
    ensures Probe(a, d, p, j) != Probe(a, d, p, k)
  {
    if Probe(a, d, p, j) == Probe(a, d, p, k) {
      ProbeOffset(a, d, p, j);
      ProbeOffset(a, d, p, k);
      OffsetAdd(d, p, j, k - j);
      var m := Period(d, p, 1);
      WholeRound(d, p);
      assert Offset(d, p, 1) == d;
      PeriodDivides(d, p, m, p);
    }
  }

  ghost function Slots(p: nat): (s: set<nat>)
    ensures |s| == p && forall i: nat :: i in s <==> i < p
  {
    if p == 0 then {} else Slots(p - 1) + {p - 1}
  }

  ghost predicate Comes(a: nat, d: nat, p: nat, n: nat, i: nat)
    requires a < p && 1 <= d < p
  {
    exists k: nat :: k < n && Probe(a, d, p, k) == i
  }

  /** The slots of the first n probes. */
  ghost function Seen(a: nat, d: nat, p: nat, n: nat): (s: set<nat>)
    requires Prime(p) && a < p && 1 <= d < p && n <= p
    ensures |s| == n && s <= Slots(p) && forall i :: i in s ==> Comes(a, d, p, n, i)
  {
    if n == 0 then {} else
    var s := Seen(a, d, p, n - 1);
    assert Probe(a, d, p, n - 1) !in s by {
      if Probe(a, d, p, n - 1) in s {
        assert Comes(a, d, p, n - 1, Probe(a, d, p, n - 1));
        var k: nat :| k < n - 1 && Probe(a, d, p, k) == Probe(a, d, p, n - 1);
        ProbesDiffer(a, d, p, k, n - 1);
      }
    }
    assert forall i :: i in s ==> Comes(a, d, p, n - 1, i) && Comes(a, d, p, n, i);
    assert Comes(a, d, p, n, Probe(a, d, p, n - 1));
    s + {Probe(a, d, p, n - 1)}
  }

  lemma SubsetFull(s: set<nat>, t: set<nat>)
    requires s <= t && |s| == |t|
    ensures s == t
  {
    if x :| x in t && x !in s {
      var r := t - {x};
      assert s <= r;
      SubsetSize(s, r);
    }
  }

  lemma {:induction false} SubsetSize(s: set<nat>, t: set<nat>)
    requires s <= t
    ensures |s| <= |t|
    decreases s
  {
    if x :| x in s { SubsetSize(s - {x}, t - {x}); }
  }

  /** Every slot comes up within p steps. */
  lemma ProbeCovers(a: nat, d: nat, p: nat, i: nat) returns (k: nat)
    requires Prime(p) && a < p && 1 <= d < p && i < p
    ensures k < p && Probe(a, d, p, k) == i
  {
    SubsetFull(Seen(a, d, p, p), Slots(p));
    assert Comes(a, d, p, p, i);
    k :| k < p && Probe(a, d, p, k) == i;
  }

  // ---- the table sizes are prime ----

  /** None of ten numbers from m on divides p. */
  predicate NoneOfTen(p: nat, m: nat)
  {
    m == 0 ||
    (p % m != 0 && p % (m + 1) != 0 && p % (m + 2) != 0 && p % (m + 3) != 0 && p % (m + 4) != 0 &&
     p % (m + 5) != 0 && p % (m + 6) != 0 && p % (m + 7) != 0 && p % (m + 8) != 0 && p % (m + 9) != 0)
  }

  /** None of the 10 * k numbers from m on divides p. */
  predicate NoDivisor(p: nat, m: nat, k: nat)
    decreases k
  {
    k == 0 || (NoneOfTen(p, m) && NoDivisor(p, m + 10, k - 1))
  }

  lemma {:induction false} NoDivisorAt(p: nat, m: nat, k: nat, i: nat)
    requires 1 <= m <= i < m + 10 * k && NoDivisor(p, m, k)
    ensures p % i != 0
    decreases k
  {
    if i >= m + 10 { NoDivisorAt(p, m + 10, k - 1, i); }
  }

  /** Trial division up to the square root is enough. */
  lemma TrialDivision(p: nat, k: nat, n: nat)
    requires p >= 2 && NoDivisor(p, 2, k) && n == 10 * k + 1 && (n + 1) * (n + 1) > p
    ensures Prime(p)
  {
    hide NoDivisor;
    forall m | 2 <= m < p ensures p % m != 0 {
      if m <= n { NoDivisorAt(p, 2, k, m); } else { LargeDivisor(p, k, n, m); }
    }
  }

  lemma LargeDivisor(p: nat, k: nat, n: nat, m: nat)
    requires p >= 2 && NoDivisor(p, 2, k) && n == 10 * k + 1 && (n + 1) * (n + 1) > p && n < m < p
    ensures p % m != 0
  {
    hide NoDivisor;
    var q := p / m;
    if p % m == 0 {
      assert p == m * q;
      Cofactor(p, m, q, n);
      OtherFactor(p, m, q);
      NoDivisorAt(p, 2, k, q);
    }
  }

  lemma OtherFactor(p: nat, m: nat, q: nat)
    requires p == m * q && q >= 1
    ensures p % q == 0
  {
    assert m * q == q * m;
    MultipleMod(q, m);
  }

  lemma Cofactor(p: nat, m: nat, q: nat, n: nat)
    requires p == m * q && n < m < p && (n + 1) * (n + 1) > p
    ensures 2 <= q <= n
  {
    assert m * (n + 1) == (n + 1) * m && m * 1 == m && m * 0 == 0;
    Scale(n + 1, n + 1, m);
    if q > n { Scale(m, n + 1, q); }
  }

  lemma NamePrime()
    ensures Prime(16381)
  {
    assert NoDivisor(16381, 2, 13);
    TrialDivision(16381, 13, 131);
  }

  lemma PackagePrime()
    ensures Prime(10007)
  {
    assert NoDivisor(10007, 2, 10);
    TrialDivision(10007, 10, 101);
  }

  lemma StatusPrime()
    ensures Prime(8191)
  {
    assert NoDivisor(8191, 2, 9);
    TrialDivision(8191, 9, 91);
  }
}
