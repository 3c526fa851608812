/** longest_match of gzip.c: follow a hash chain and find the longest match in the window. */
module LongestMatch {
  import opened Bits
  import opened Limits
  import opened Hash

  /** The window and the bytes after it that a comparison may run into at the end of the input. */
  const WINDOW_MEM: nat := 2 * WSIZE + MIN_LOOKAHEAD

  // ---- what a match is ----

  ghost predicate Same(w: seq<byte>, a: nat, b: nat, n: nat)
  {
    a + n <= |w| && b + n <= |w| && w[a..a + n] == w[b..b + n]
  }

  /** The number of equal bytes from a and b on, before b reaches end. */
  ghost function Common(w: seq<byte>, a: nat, b: nat, end: nat): (n: nat)
    requires a <= b <= end <= |w|
    ensures b + n <= end
    decreases end - b
  {
    if b < end && w[a] == w[b] then 1 + Common(w, a + 1, b + 1, end) else 0
  }

  /** The length of the match of the string at s with the one at a. */
  ghost function MatchLen(w: seq<byte>, a: nat, s: nat): (n: nat)
    requires a <= s && s + MAX_MATCH <= |w|
    ensures n <= MAX_MATCH
  {
    Common(w, a, s, s + MAX_MATCH)
  }

  lemma SameAt(w: seq<byte>, a: nat, b: nat, n: nat, i: nat)
    requires Same(w, a, b, n) && i < n
    ensures w[a + i] == w[b + i]
  {
    assert w[a..a + n][i] == w[b..b + n][i];
  }

  lemma {:induction false} CommonIs(w: seq<byte>, a: nat, b: nat, end: nat, n: nat)
    requires a <= b <= b + n <= end <= |w| && Same(w, a, b, n) && (b + n < end ==> w[a + n] != w[b + n])
    ensures Common(w, a, b, end) == n
    decreases n
  {
    if n > 0 {
      SameAt(w, a, b, n, 0);
      assert w[a + 1..a + n] == w[a..a + n][1..] && w[b + 1..b + n] == w[b..b + n][1..];
      CommonIs(w, a + 1, b + 1, end, n - 1);
    }
  }

  lemma {:induction false} CommonSame(w: seq<byte>, a: nat, b: nat, end: nat)
    requires a <= b <= end <= |w|
    ensures var n := Common(w, a, b, end); Same(w, a, b, n) && (b + n < end ==> w[a + n] != w[b + n])
    decreases end - b
  {
    if b < end && w[a] == w[b] {
      CommonSame(w, a + 1, b + 1, end);
      var n := Common(w, a + 1, b + 1, end);
      assert w[a..a + 1 + n] == [w[a]] + w[a + 1..a + 1 + n] && w[b..b + 1 + n] == [w[b]] + w[b + 1..b + 1 + n];
    }
  }

  // ---- hash chains ----

  ghost function HashAt(w: seq<byte>, q: nat): (h: nat)
    requires q + 2 < |w|
    ensures h < HASH_SIZE
  {
    Hash3(w[q], w[q + 1], w[q + 2])
  }

  /** None of the strings after position from and before position to has hash h. */
  ghost predicate Without(w: seq<byte>, from: nat, to: nat, h: int)
    requires to + 2 <= |w|
  {
    forall q: nat :: from < q < to ==> HashAt(w, q) != h
  }

  /** The head of the chain of hash h: the last string with this hash, or 0 when none after position 0 has it. */
  ghost predicate HeadOk(w: seq<byte>, m: nat, h: int, ins: nat)
    requires ins + 2 <= |w|
  {
    (m == 0 || (m < ins && HashAt(w, m) == h)) && Without(w, m, ins, h)
  }

  /** The link from string q leads to the last older string with the same hash, or to 0 when none after position 0 has
      it. */
  ghost predicate LinkOk(w: seq<byte>, prev: seq<ush>, q: nat)
    requires q + 2 < |w| && |prev| == 2 * WSIZE
  {
    var r := prev[q % WSIZE];
    (r == 0 || (r < q && HashAt(w, r) == HashAt(w, q))) && Without(w, r, q, HashAt(w, q))
  }

  /** The dictionary after the strings at all positions below ins have been inserted. */
  ghost predicate Linked(w: seq<byte>, prev: seq<ush>, ins: nat)
  {
    |prev| == 2 * WSIZE && ins + 2 <= |w| &&
    (forall i :: WSIZE <= i < WSIZE + HASH_SIZE ==> HeadOk(w, prev[i], i - WSIZE, ins)) &&
    (forall q: nat :: q < ins && ins <= q + WSIZE ==> LinkOk(w, prev, q))
  }

  /** A string that longest_match may compare with the one at s. */
  ghost predicate Candidate(w: seq<byte>, s: nat, cur: nat)
  {
    0 < cur < s && s - cur <= MAX_DIST && s + MAX_MATCH < |w| && HashAt(w, cur) == HashAt(w, s)
  }

  lemma NextCandidate(w: seq<byte>, prev: seq<ush>, s: nat, cur: nat)
    requires Linked(w, prev, s + 1) && Candidate(w, s, cur)
    ensures cur % WSIZE < |prev| && var next := prev[cur % WSIZE];
            next > Limit(s) ==> next < cur && Candidate(w, s, next)
  {
    hide HashAt;
    assert LinkOk(w, prev, cur);
  }

  function Limit(s: nat): (l: nat)
  {
    if s > MAX_DIST then s - MAX_DIST else 0
  }

  /** The strings visited from cur on when at most n of them are. */
  ghost function Visited(w: seq<byte>, prev: seq<ush>, s: nat, cur: nat, n: nat): (c: seq<nat>)
    requires Linked(w, prev, s + 1) && Candidate(w, s, cur)
    ensures |c| >= 1 && forall i :: 0 <= i < |c| ==> Candidate(w, s, c[i])
    decreases n
  {
    NextCandidate(w, prev, s, cur);
    var next := prev[cur % WSIZE];
    if next > Limit(s) && n > 1 then [cur] + Visited(w, prev, s, next, n - 1) else [cur]
  }

  ghost predicate InWindow(w: seq<byte>, s: nat, c: seq<nat>)
  {
    s + MAX_MATCH < |w| && forall i :: 0 <= i < |c| ==> c[i] < s
  }

  /** The first of the longest matches among the candidates, if it is longer than best; a match of full length ends the
      search. */
  ghost function Longest(w: seq<byte>, s: nat, c: seq<nat>, best: nat, start: int): (r: (nat, int))
    requires InWindow(w, s, c)
    decreases |c|
  {
    if c == [] then (best, start)
    else
      var l := MatchLen(w, c[0], s);
      if l <= best then Longest(w, s, c[1..], best, start)
      else if l >= NICE_MATCH then (l, c[0])
      else Longest(w, s, c[1..], l, c[0])
  }

  /** Longest is what its name says: no candidate matches further, and a result above best is attained. */
  lemma {:induction false} LongestIsMaximal(w: seq<byte>, s: nat, c: seq<nat>, best: nat, start: int)
    requires InWindow(w, s, c)
    ensures Longest(w, s, c, best, start).0 >= best
    ensures forall i :: 0 <= i < |c| ==> MatchLen(w, c[i], s) <= Longest(w, s, c, best, start).0
    ensures Longest(w, s, c, best, start).0 == best ==> Longest(w, s, c, best, start).1 == start
    ensures Longest(w, s, c, best, start).0 > best ==>
      exists i :: 0 <= i < |c| && c[i] == Longest(w, s, c, best, start).1 &&
        MatchLen(w, c[i], s) == Longest(w, s, c, best, start).0
    decreases |c|
  {
    hide MatchLen;
    if c != [] {
      var l := MatchLen(w, c[0], s);
      var c' := c[1..];
      var (b', st') := if l <= best then (best, start) else (l, c[0]);
      LongestIsMaximal(w, s, c', b', st');
      var r := Longest(w, s, c', b', st');
      forall i | 0 <= i < |c| ensures l < NICE_MATCH || l <= best ==> MatchLen(w, c[i], s) <= r.0 {
        if i > 0 { assert c[i] == c'[i - 1]; }
      }
      if r.0 > b' {
        var i :| 0 <= i < |c'| && c'[i] == r.1 && MatchLen(w, c'[i], s) == r.0;
        assert c[i + 1] == r.1;
      }
    }
  }

  // ---- what the chains leave out ----

  /** The number of strings after position from, up to position last, with the hash of the string at s. */
  ghost function Alike(w: seq<byte>, s: nat, from: nat, last: nat): (n: nat)
    requires from <= last && last + 2 < |w| && s + 2 < |w|
    decreases last
  {
    if from == last then 0 else Alike(w, s, from, last - 1) + if HashAt(w, last) == HashAt(w, s) then 1 else 0
  }

  lemma {:induction false} AlikeGap(w: seq<byte>, s: nat, from: nat, mid: nat, last: nat)
    requires from <= mid < last && last + 2 < |w| && s + 2 < |w| && Without(w, mid, last, HashAt(w, s))
    ensures Alike(w, s, from, last - 1) == Alike(w, s, from, mid)
    decreases last
  {
    hide HashAt;
    if mid + 1 < last { AlikeGap(w, s, from, mid, last - 1); }
  }

  /** The walk along a chain is complete: a string of the same hash within reach is visited, unless the walk ended
      because n newer ones were. */
  lemma {:induction false} VisitedAll(w: seq<byte>, prev: seq<ush>, s: nat, cur: nat, n: nat, p: nat)
    requires Linked(w, prev, s + 1) && Candidate(w, s, cur) && 1 <= n
    requires p <= cur && HashAt(w, p) == HashAt(w, s) && (p == cur || Limit(s) < p)
    ensures p in Visited(w, prev, s, cur, n) || Alike(w, s, p, cur) >= n
    decreases n
  {
    hide HashAt;
    NextCandidate(w, prev, s, cur);
    if p < cur {
      assert LinkOk(w, prev, cur);
      var next := prev[cur % WSIZE];
      AlikeGap(w, s, p, next, cur);
      if n > 1 { VisitedAll(w, prev, s, next, n - 1, p); }
    }
  }

  /** Each string is visited once, the newest first. */
  lemma {:induction false} VisitedNewestFirst(w: seq<byte>, prev: seq<ush>, s: nat, cur: nat, n: nat)
    requires Linked(w, prev, s + 1) && Candidate(w, s, cur)
    ensures var c := Visited(w, prev, s, cur, n); c[0] == cur && forall i, j :: 0 <= i < j < |c| ==> c[i] > c[j]
    decreases n
  {
    hide HashAt;
    NextCandidate(w, prev, s, cur);
    var next := prev[cur % WSIZE];
    if next > Limit(s) && n > 1 { VisitedNewestFirst(w, prev, s, next, n - 1); }
  }

  lemma LongMatchesAreAlike(w: seq<byte>, s: nat, p: nat)
    requires p < s && s + MAX_MATCH < |w| && MatchLen(w, p, s) >= MIN_MATCH
    ensures HashAt(w, p) == HashAt(w, s)
  {
    hide Hash3;
    CommonSame(w, p, s, s + MAX_MATCH);
    var n := MatchLen(w, p, s);
    SameAt(w, p, s, n, 0);
    SameAt(w, p, s, n, 1);
    SameAt(w, p, s, n, 2);
  }

  /** A string in the window that matches further than len is older than n other strings with its hash. */
  ghost predicate Overlooked(w: seq<byte>, s: nat, p: nat, len: nat, n: nat)
    requires p < s && s + MAX_MATCH < |w|
  {
    MatchLen(w, p, s) > len ==> Alike(w, s, p, s - 1) >= n
  }

  /** The search of the chain that starts at the head finds the longest match in the window, unless more strings than
      it may visit have the hash of the string at s. */
  lemma SearchIsComplete(w: seq<byte>, prev: seq<ush>, s: nat, cur: nat, n: nat, best: nat, start: int, p: nat)
    requires Linked(w, prev, s + 1) && Candidate(w, s, cur) && HeadOk(w, cur, HashAt(w, s), s) && 1 <= n
    requires InWindow(w, s, Visited(w, prev, s, cur, n)) && best >= MIN_MATCH - 1 && Limit(s) < p < s
    ensures Overlooked(w, s, p, Longest(w, s, Visited(w, prev, s, cur, n), best, start).0, n)
  {
    hide HashAt, MatchLen, Longest, Visited;
    var c := Visited(w, prev, s, cur, n);
    LongestIsMaximal(w, s, c, best, start);
    if MatchLen(w, p, s) > Longest(w, s, c, best, start).0 {
      LongMatchesAreAlike(w, s, p);
      VisitedAll(w, prev, s, cur, n, p);
      AlikeGap(w, s, p, cur, s);
    }
  }

  /** A chain without a head in reach: nothing in the window matches. */
  lemma NothingInReach(w: seq<byte>, s: nat, m: nat, p: nat)
    requires s + MAX_MATCH < |w| && HeadOk(w, m, HashAt(w, s), s) && (m == 0 || s - m > MAX_DIST)
    requires Limit(s) < p < s
    ensures MatchLen(w, p, s) < MIN_MATCH
  {
    hide HashAt, MatchLen;
    if MatchLen(w, p, s) >= MIN_MATCH { LongMatchesAreAlike(w, s, p); }
  }

  // ---- the search ----

  /** A candidate that fails one of the four quick tests is no longer than the best match so far. */
  lemma QuickTest(w: seq<byte>, s: nat, cur: nat, best: nat)
    requires cur < s && s + MAX_MATCH < |w| && 1 <= best
    ensures MatchLen(w, cur, s) > best ==>
      w[cur + best] == w[s + best] && w[cur + best - 1] == w[s + best - 1] && w[cur] == w[s] && w[cur + 1] == w[s + 1]
  {
    CommonSame(w, cur, s, s + MAX_MATCH);
    var n := MatchLen(w, cur, s);
    if n > best {
      SameAt(w, cur, s, n, best);
      SameAt(w, cur, s, n, best - 1);
      SameAt(w, cur, s, n, 0);
      SameAt(w, cur, s, n, 1);
    }
  }

  lemma FirstThree(w: seq<byte>, s: nat, cur: nat)
    requires Candidate(w, s, cur) && w[cur] == w[s] && w[cur + 1] == w[s + 1]
    ensures Same(w, cur, s, 3)
  {
    hide Hash3;
    ThirdByte(w[s], w[s + 1], w[cur + 2], w[s + 2]);
    assert w[cur..cur + 3] == [w[cur], w[cur + 1], w[cur + 2]] && w[s..s + 3] == [w[s], w[s + 1], w[s + 2]];
  }

  lemma SameGrows(w: seq<byte>, a: nat, b: nat, n: nat)
    requires Same(w, a, b, n) && a + n < |w| && b + n < |w| && w[a + n] == w[b + n]
    ensures Same(w, a, b, n + 1)
  {
    assert w[a..a + n + 1] == w[a..a + n] + [w[a + n]] && w[b..b + n + 1] == w[b..b + n] + [w[b + n]];
  }

  /** The comparison loop, which looks at the end of the string only after every eighth byte. */
  method Compare(window: array<byte>, s: nat, cur: nat) returns (len: nat)
    requires cur < s && s + MAX_MATCH < window.Length && Same(window[..], cur, s, 3)
    ensures len == MatchLen(window[..], cur, s)
  {
    hide Same;
    ghost var w := window[..];
    var scan, equal := s + 2, true;
    while equal && scan < s + MAX_MATCH
      invariant equal ==> Same(w, cur, s, scan + 1 - s)
      invariant s + 2 <= scan <= s + MAX_MATCH && (equal ==> (scan - s - 2) % 8 == 0)
      invariant !equal ==> Same(w, cur, s, scan - s) && w[scan] != w[cur + (scan - s)]
      decreases s + MAX_MATCH - scan
    {
      ghost var scan0 := scan;
      var i := 0;
      while equal && i < 8
        invariant 0 <= i <= 8 && scan == scan0 + i && (equal || i > 0)
        invariant equal ==> Same(w, cur, s, scan + 1 - s)
        invariant !equal ==> Same(w, cur, s, scan - s) && w[scan] != w[cur + (scan - s)]
      {
        scan := scan + 1;
        equal := window[scan] == window[cur + (scan - s)];
        if equal { SameGrows(w, cur, s, scan - s); }
        i := i + 1;
      }
    }
    len := MAX_MATCH - (s + MAX_MATCH - scan);
    Compared(w, s, cur, len, equal);
  }

  lemma Compared(w: seq<byte>, s: nat, cur: nat, len: nat, equal: bool)
    requires cur < s && len <= MAX_MATCH && s + MAX_MATCH < |w|
    requires equal ==> len == MAX_MATCH && Same(w, cur, s, len + 1)
    requires !equal ==> Same(w, cur, s, len) && w[s + len] != w[cur + len]
    ensures len == MatchLen(w, cur, s)
  {
    if equal {
      assert w[cur..cur + len] == w[cur..cur + len + 1][..len] && w[s..s + len] == w[s..s + len + 1][..len];
    }
    CommonIs(w, cur, s, s + MAX_MATCH, len);
  }

  /** The number of strings visited at most. */
  function ChainLength(prevLength: nat): (n: nat)
    ensures n >= 1
  {
    if prevLength >= GOOD_MATCH then MAX_CHAIN_LENGTH / 4 else MAX_CHAIN_LENGTH
  }

  lemma VisitedStep(w: seq<byte>, prev: seq<ush>, s: nat, cur: nat, n: nat, best: nat, start: int)
    requires Linked(w, prev, s + 1) && Candidate(w, s, cur) && 1 <= n
    ensures InWindow(w, s, Visited(w, prev, s, cur, n)) && cur % WSIZE < |prev|
    ensures var l, next := MatchLen(w, cur, s), prev[cur % WSIZE];
            var r := Longest(w, s, Visited(w, prev, s, cur, n), best, start);
            var (b, st) := if l > best then (l, cur) else (best, start);
            (l > best && l >= NICE_MATCH ==> r == (b, st)) &&
            (l <= best || l < NICE_MATCH ==>
              if next > Limit(s) && n > 1
              then Candidate(w, s, next) && InWindow(w, s, Visited(w, prev, s, next, n - 1)) &&
                   r == Longest(w, s, Visited(w, prev, s, next, n - 1), b, st)
              else r == (b, st))
  {
    hide MatchLen, Linked, HashAt;
    NextCandidate(w, prev, s, cur);
    var c := Visited(w, prev, s, cur, n);
    assert prev[cur % WSIZE] > Limit(s) && n > 1 ==> c[1..] == Visited(w, prev, s, prev[cur % WSIZE], n - 1);
  }

  /** The longest match of the string at strstart along the chain from curMatch, if it is longer than prevLength. */
  method LongestMatch(window: array<byte>, prev: array<ush>, strstart: nat, prevLength: nat, start: int, curMatch: nat)
    returns (bestLen: nat, matchStart: int)
    requires Linked(window[..], prev[..], strstart + 1) && Candidate(window[..], strstart, curMatch)
    requires 2 <= prevLength < NICE_MATCH
    ensures InWindow(window[..], strstart, Visited(window[..], prev[..], strstart, curMatch, ChainLength(prevLength)))
    ensures (bestLen, matchStart) ==
            Longest(window[..], strstart, Visited(window[..], prev[..], strstart, curMatch, ChainLength(prevLength)),
              prevLength, start)
  {
    hide MatchLen, Linked, HashAt, Longest, Visited, Same, InWindow;
    ghost var w, p, s: nat := window[..], prev[..], strstart;
    var chain: nat, cur: nat := ChainLength(prevLength), curMatch;
    var limit := Limit(strstart);
    bestLen, matchStart := prevLength, start;
    var scanEnd1, scanEnd := window[strstart + bestLen - 1], window[strstart + bestLen];
    VisitedStep(w, p, s, cur, chain, bestLen, matchStart);
    ghost var r := Longest(w, s, Visited(w, p, s, cur, chain), bestLen, matchStart);
    while true
      invariant 1 <= chain && Candidate(w, s, cur) && 2 <= bestLen < NICE_MATCH
      invariant scanEnd1 == w[s + bestLen - 1] && scanEnd == w[s + bestLen]
      invariant InWindow(w, s, Visited(w, p, s, cur, chain)) &&
        r == Longest(w, s, Visited(w, p, s, cur, chain), bestLen, matchStart)
      decreases chain
    {
      VisitedStep(w, p, s, cur, chain, bestLen, matchStart);
      QuickTest(w, s, cur, bestLen);
      if window[cur + bestLen] == scanEnd && window[cur + bestLen - 1] == scanEnd1 &&
         window[cur] == window[strstart] && window[cur + 1] == window[strstart + 1]
      {
        FirstThree(w, s, cur);
        var len := Compare(window, strstart, cur);
        if len > bestLen {
          matchStart, bestLen := cur, len;
          if len >= NICE_MATCH { break; }
          scanEnd1, scanEnd := window[strstart + bestLen - 1], window[strstart + bestLen];
        }
      }
      cur := prev[cur % WSIZE];
      if cur <= limit { break; }
      chain := chain - 1;
      if chain == 0 { break; }
    }
  }
}
