/** The string dictionary of gzip.c: INSERT_STRING, and what sliding the window does to it. */
module Dictionary {
  import opened Bits
  import opened Limits
  import opened Hash
  import opened LongestMatch

  /** The running hash stands before the string at ins: its first two bytes are in. */
  ghost predicate Ready(w: seq<byte>, insH: nat, ins: nat)
  {
    ins + 1 < |w| && forall c: byte :: Update(insH, c) == Hash3(w[ins], w[ins + 1], c)
  }

  /** All strings below ins are in the dictionary, and the one at ins is next. */
  ghost predicate Dict(w: seq<byte>, prev: seq<ush>, insH: nat, ins: nat)
  {
    Linked(w, prev, ins) && Ready(w, insH, ins)
  }

  lemma InsertLinked(w: seq<byte>, prev: seq<ush>, s: nat, h: nat)
    requires Linked(w, prev, s) && s + 2 < |w| && s < 2 * WSIZE && h == HashAt(w, s)
    ensures Linked(w, prev[s % WSIZE := prev[WSIZE + h]][WSIZE + h := s], s + 1)
  {
    hide HashAt;
    var prev' := prev[s % WSIZE := prev[WSIZE + h]][WSIZE + h := s];
    assert HeadOk(w, prev[WSIZE + h], h, s);
    forall q: nat | q < s + 1 && s + 1 <= q + WSIZE ensures LinkOk(w, prev', q) {
      if q < s {
        assert LinkOk(w, prev, q);
        assert q % WSIZE != s % WSIZE;
      }
    }
    forall i | WSIZE <= i < WSIZE + HASH_SIZE ensures HeadOk(w, prev'[i], i - WSIZE, s + 1) {
      assert HeadOk(w, prev[i], i - WSIZE, s);
    }
  }

  lemma RollsOn(w: seq<byte>, s: nat)
    requires s + 2 < |w|
    ensures Ready(w, HashAt(w, s), s + 1)
  {
    hide Hash3, Update;
    forall c: byte
      ensures Update(HashAt(w, s), c) == Hash3(w[s + 1], w[s + 2], c)
    {
      Rolls(w[s], w[s + 1], w[s + 2], c);
    }
  }

  /** INSERT_STRING(s, head). */
  method InsertString(window: array<byte>, prev: array<ush>, insH: nat, s: nat) returns (insH': nat, head: nat)
    requires Dict(window[..], prev[..], insH, s) && s + 2 < window.Length && s < 2 * WSIZE
    modifies prev
    ensures Dict(window[..], prev[..], insH', s + 1)
    ensures HeadOk(window[..], head, HashAt(window[..], s), s)
  {
    hide HashAt, Hash3, HeadOk, LinkOk;
    ghost var w, p := window[..], prev[..];
    insH' := Update(insH, window[s + MIN_MATCH - 1]);
    assert insH' == HashAt(w, s) by { HashIs(w, s); }
    head := prev[WSIZE + insH'];
    assert HeadOk(w, p[WSIZE + insH'], insH', s);
    prev[s % WSIZE] := head;
    prev[WSIZE + insH'] := s;
    InsertLinked(w, p, s, insH');
    assert prev[..] == p[s % WSIZE := p[WSIZE + insH']][WSIZE + insH' := s];
    RollsOn(w, s);
  }

  /** Insert n strings from s on, as deflate does for the rest of a match. */
  method InsertStrings(window: array<byte>, prev: array<ush>, insH: nat, s: nat, n: nat) returns (insH': nat)
    requires Dict(window[..], prev[..], insH, s) && window.Length == WINDOW_MEM && s + n <= 2 * WSIZE
    modifies prev
    ensures Dict(window[..], prev[..], insH', s + n)
  {
    hide Dict, HeadOk;
    insH' := insH;
    var i := 0;
    while i < n
      invariant 0 <= i <= n && Dict(window[..], prev[..], insH', s + i)
    {
      var head;
      insH', head := InsertString(window, prev, insH', s + i);
      i := i + 1;
    }
  }

  lemma HashIs(w: seq<byte>, s: nat)
    requires s + 2 < |w|
    ensures HashAt(w, s) == Hash3(w[s], w[s + 1], w[s + 2])
  {
  }

  // ---- reading more input ----

  /** Bytes that no inserted string covers may change. */
  lemma DictFrame(w: seq<byte>, w': seq<byte>, prev: seq<ush>, ins: nat, n: nat)
    requires Linked(w, prev, ins) && ins + 1 < n <= |w| == |w'| && w[..n] == w'[..n]
    ensures Linked(w', prev, ins)
    ensures forall insH: nat :: Ready(w, insH, ins) ==> Ready(w', insH, ins)
  {
    hide Hash3, Update;
    assert forall i :: 0 <= i < n ==> w[i] == w[..n][i] == w'[i];
    forall q: nat | q < ins ensures HashAt(w, q) == HashAt(w', q) { }
    forall i | WSIZE <= i < WSIZE + HASH_SIZE
      ensures HeadOk(w', prev[i], i - WSIZE, ins)
    {
      assert HeadOk(w, prev[i], i - WSIZE, ins);
    }
    forall q: nat | q < ins && ins <= q + WSIZE ensures LinkOk(w', prev, q) { assert LinkOk(w, prev, q); }
  }

  // ---- sliding ----

  function Slid(m: ush): (r: ush)
  {
    if m >= WSIZE then m - WSIZE else 0
  }

  lemma HashSlides(w: seq<byte>, w': seq<byte>, q: nat)
    requires |w| == |w'| == WINDOW_MEM && (forall i :: 0 <= i < WSIZE ==> w'[i] == w[i + WSIZE]) && q + 2 < WSIZE
    ensures HashAt(w', q) == HashAt(w, q + WSIZE)
  {
    hide Hash3;
  }

  lemma WithoutSlides(w: seq<byte>, w': seq<byte>, m: ush, to: nat, h: nat)
    requires |w| == |w'| == WINDOW_MEM && forall i :: 0 <= i < WSIZE ==> w'[i] == w[i + WSIZE]
    requires WSIZE <= to && to + 1 < 2 * WSIZE && Without(w, m, to, h)
    ensures Without(w', Slid(m), to - WSIZE, h)
  {
    hide HashAt;
    forall q: nat | Slid(m) < q < to - WSIZE ensures HashAt(w', q) != h {
      HashSlides(w, w', q);
    }
  }

  lemma DictSlides(w: seq<byte>, w': seq<byte>, prev: seq<ush>, prev': seq<ush>, ins: nat)
    requires Linked(w, prev, ins) && WSIZE <= ins && ins + 1 < 2 * WSIZE
    requires |w| == |w'| == WINDOW_MEM && forall i :: 0 <= i < WSIZE ==> w'[i] == w[i + WSIZE]
    requires |prev'| == 2 * WSIZE && forall i :: 0 <= i < WSIZE + HASH_SIZE ==> prev'[i] == Slid(prev[i])
    ensures Linked(w', prev', ins - WSIZE)
    ensures forall insH: nat :: Ready(w, insH, ins) ==> Ready(w', insH, ins - WSIZE)
  {
    hide Hash3, Update, HashAt, Without;
    forall i | WSIZE <= i < WSIZE + HASH_SIZE ensures HeadOk(w', prev'[i], i - WSIZE, ins - WSIZE) {
      assert HeadOk(w, prev[i], i - WSIZE, ins);
      WithoutSlides(w, w', prev[i], ins, i - WSIZE);
      if prev[i] >= WSIZE { HashSlides(w, w', prev[i] - WSIZE); }
    }
    forall q: nat | q < ins - WSIZE && ins - WSIZE <= q + WSIZE ensures LinkOk(w', prev', q) {
      assert LinkOk(w, prev, q + WSIZE);
      assert (q + WSIZE) % WSIZE == q % WSIZE;
      HashSlides(w, w', q);
      var r := prev[q % WSIZE];
      WithoutSlides(w, w', r, q + WSIZE, HashAt(w', q));
      if r >= WSIZE { HashSlides(w, w', r - WSIZE); }
    }
  }

  method SlideLinks(prev: array<ush>, from: nat, to: nat)
    requires from <= to <= prev.Length
    modifies prev
    ensures forall i :: 0 <= i < prev.Length ==> prev[i] == if from <= i < to then Slid(old(prev[i])) else old(prev[i])
  {
    for n := from to to
      invariant forall i :: 0 <= i < prev.Length ==>
        prev[i] == if from <= i < n then Slid(old(prev[i])) else old(prev[i])
    {
      var m := prev[n];
      prev[n] := if m >= WSIZE then m - WSIZE else 0;
    }
  }
}
