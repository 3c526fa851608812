/** The head of a block with dynamic trees (section 3.2.7 of RFC 1951): how it is
    spelled, how a decoder reads it back, and what it costs. */
module DynHeader {
  import opened Bits
  import opened Limits
  import opened Canonical
  import opened Inflate
  import opened RunLength
  import opened CodeCost
  import TreeSender

  /** The first k code length code lengths, three bits each. */
  ghost function ClBits(cl: seq<nat>, k: nat): (b: seq<bool>)
    requires |cl| == BL_CODES && k <= BL_CODES
    ensures |b| == 3 * k
  {
    if k == 0 then [] else ClBits(cl, k - 1) + Lsb(cl[CL_ORDER[k - 1]], 3)
  }

  lemma ClBitsStep(cl: seq<nat>, k: nat)
    requires |cl| == BL_CODES && k < BL_CODES
    ensures ClBits(cl, k + 1) == ClBits(cl, k) + Lsb(cl[CL_ORDER[k]], 3)
  {
  }

  lemma OrderDistinct(i: nat, j: nat)
    requires i < j < BL_CODES
    ensures CL_ORDER[i] != CL_ORDER[j]
  {
    assert CL_ORDER[i] == OrderOf(i) && CL_ORDER[j] == OrderOf(j);
    assert RankOf(OrderOf(i)) == i && RankOf(OrderOf(j)) == j;
  }

  ghost function OrderOf(i: nat): (c: int)
  {
    if i < 3 then 16 + i else if i == 3 then 0 else if i % 2 == 0 then 8 + (i - 4) / 2 else 8 - (i - 3) / 2
  }

  /** Where symbol c stands in CL_ORDER. */
  ghost function RankOf(c: int): (i: int)
  {
    if c >= 16 then c - 16 else if c == 0 then 3 else if c >= 8 then 4 + 2 * (c - 8) else 3 + 2 * (8 - c)
  }

  lemma OrderAt(c: nat)
    requires c < BL_CODES
    ensures 0 <= RankOf(c) < BL_CODES && CL_ORDER[RankOf(c)] == c
  {
  }

  lemma {:induction false} ClReads(cl: seq<nat>, k: nat, bits: seq<bool>, pos: nat)
    requires |cl| == BL_CODES && k <= BL_CODES && Bounded(cl, 7) && At(bits, pos, ClBits(cl, k))
    ensures forall i :: 0 <= i < k ==> CodeLengthLengths(bits, pos, k)[CL_ORDER[i]] == cl[CL_ORDER[i]]
    ensures forall i :: k <= i < BL_CODES ==> CodeLengthLengths(bits, pos, k)[CL_ORDER[i]] == 0
  {
    hide Lsb, At, LsbValue, CodeLengthLengths, ClBits;
    AtFacts(bits, pos, ClBits(cl, k));
    if k == 0 {
      NoClRead(bits, pos);
    } else {
      ClReadStep(cl, k - 1, bits, pos);
      ClReads(cl, k - 1, bits, pos);
      var r', r := CodeLengthLengths(bits, pos, k - 1), CodeLengthLengths(bits, pos, k);
      forall i | 0 <= i < BL_CODES && i != k - 1 ensures r[CL_ORDER[i]] == r'[CL_ORDER[i]] {
        OrderDistinct(if i < k - 1 then i else k - 1, if i < k - 1 then k - 1 else i);
      }
    }
  }

  lemma NoClRead(bits: seq<bool>, pos: nat)
    requires pos <= |bits|
    ensures forall c :: 0 <= c < BL_CODES ==> CodeLengthLengths(bits, pos, 0)[c] == 0
  {
  }

  lemma ClReadStep(cl: seq<nat>, k: nat, bits: seq<bool>, pos: nat)
    requires |cl| == BL_CODES && k < BL_CODES && Bounded(cl, 7) && At(bits, pos, ClBits(cl, k + 1))
    ensures At(bits, pos, ClBits(cl, k)) && pos + 3 * (k + 1) <= |bits|
    ensures CodeLengthLengths(bits, pos, k + 1) == CodeLengthLengths(bits, pos, k)[CL_ORDER[k] := cl[CL_ORDER[k]]]
  {
    hide Lsb, At, LsbValue;
    var c := CL_ORDER[k];
    AtFacts(bits, pos, ClBits(cl, k + 1));
    AtSplit(bits, pos, ClBits(cl, k), Lsb(cl[c], 3));
    Pow2Values();
    NumberReads(bits, pos + 3 * k, cl[c], 3);
  }

  lemma AtFacts(bits: seq<bool>, pos: nat, x: seq<bool>)
    requires At(bits, pos, x)
    ensures pos + |x| <= |bits|
  {
  }

  /** Lengths beyond the k-th in CL_ORDER are zero. */
  ghost predicate EndsAt(cl: seq<nat>, k: nat)
  {
    |cl| == BL_CODES && k <= BL_CODES && forall i :: k <= i < BL_CODES ==> cl[CL_ORDER[i]] == 0
  }

  lemma ClReadsAll(cl: seq<nat>, k: nat, bits: seq<bool>, pos: nat)
    requires EndsAt(cl, k) && Bounded(cl, 7) && At(bits, pos, ClBits(cl, k))
    ensures pos + 3 * k <= |bits| && CodeLengthLengths(bits, pos, k) == cl
  {
    hide At, ClBits, CodeLengthLengths;
    AtFacts(bits, pos, ClBits(cl, k));
    ClReads(cl, k, bits, pos);
    var r := CodeLengthLengths(bits, pos, k);
    forall c | 0 <= c < BL_CODES ensures r[c] == cl[c] {
      OrderAt(c);
      assert CL_ORDER[RankOf(c)] == c;
    }
  }

  /** What a dynamic block starts with. */
  ghost function TablesBits(ll: seq<nat>, dl: seq<nat>, cl: seq<nat>, k: nat): (b: seq<bool>)
    requires |ll| >= 257 && |dl| >= 1 && 4 <= k <= BL_CODES && |cl| == BL_CODES
    requires Within(cl, RunLengths(ll)) && Within(cl, RunLengths(dl))
  {
    Lsb(|ll| - 257, 5) + (Lsb(|dl| - 1, 5) + (Lsb(k - 4, 4) + (ClBits(cl, k) +
    (SymBits(cl, RunLengths(ll)) + SymBits(cl, RunLengths(dl))))))
  }

  ghost predicate Small(lens: seq<nat>) { forall i :: 0 <= i < |lens| ==> lens[i] < 16 }

  lemma BothTables(ll: seq<nat>, dl: seq<nat>, cl: seq<nat>, bits: seq<bool>, pos: nat)
    requires Small(ll) && Small(dl) && Decodable(cl, 7) && Within(cl, RunLengths(ll)) && Within(cl, RunLengths(dl))
    requires At(bits, pos, SymBits(cl, RunLengths(ll)) + SymBits(cl, RunLengths(dl)))
    ensures Lengths(cl, bits, pos, |ll| + |dl|, [])
            == Some((ll + dl, pos + |SymBits(cl, RunLengths(ll))| + |SymBits(cl, RunLengths(dl))|))
  {
    hide At, Decodable, Lengths, SymBits, Within, RunLengths, Expand, AllLegal;
    var a, b := RunLengths(ll), RunLengths(dl);
    RoundTrip(ll, []);
    RoundTrip(dl, ll);
    assert [] + ll == ll;
    ExpandConcat(a, b, []);
    SymBitsConcat(cl, a, b);
    LengthsDecode(cl, a + b, bits, pos, |ll| + |dl|, []);
  }

  /** A decoder reads the two tables back. */
  lemma TablesRead(ll: seq<nat>, dl: seq<nat>, cl: seq<nat>, k: nat, bits: seq<bool>, pos: nat)
    requires 257 <= |ll| <= 286 && 1 <= |dl| <= 30 && 4 <= k && EndsAt(cl, k) && Small(ll) && Small(dl)
    requires Decodable(cl, 7) && Decodable(ll, 15) && Decodable(dl, 15)
    requires Within(cl, RunLengths(ll)) && Within(cl, RunLengths(dl))
    requires At(bits, pos, TablesBits(ll, dl, cl, k))
    ensures Tables(bits, pos) == Some((ll, dl, pos + |TablesBits(ll, dl, cl, k)|))
  {
    hide At, Decodable, Lengths, SymBits, Within, RunLengths, Lsb, Number, ClBits, CodeLengthLengths, Pow2;
    var syms := SymBits(cl, RunLengths(ll)) + SymBits(cl, RunLengths(dl));
    var r3 := ClBits(cl, k) + syms;
    var r2 := Lsb(k - 4, 4) + r3;
    var r1 := Lsb(|dl| - 1, 5) + r2;
    AtSplit(bits, pos, Lsb(|ll| - 257, 5), r1);
    AtSplit(bits, pos + 5, Lsb(|dl| - 1, 5), r2);
    AtSplit(bits, pos + 10, Lsb(k - 4, 4), r3);
    AtSplit(bits, pos + 14, ClBits(cl, k), syms);
    Pow2Values();
    NumberReads(bits, pos, |ll| - 257, 5);
    NumberReads(bits, pos + 5, |dl| - 1, 5);
    NumberReads(bits, pos + 10, k - 4, 4);
    ClReadsAllDecodable(cl, k, bits, pos + 14);
    BothTables(ll, dl, cl, bits, pos + 14 + 3 * k);
    assert (ll + dl)[..|ll|] == ll && (ll + dl)[|ll|..] == dl;
  }

  lemma ClReadsAllDecodable(cl: seq<nat>, k: nat, bits: seq<bool>, pos: nat)
    requires EndsAt(cl, k) && Decodable(cl, 7) && At(bits, pos, ClBits(cl, k))
    ensures pos + 3 * k <= |bits| && CodeLengthLengths(bits, pos, k) == cl
  {
    ClReadsAll(cl, k, bits, pos);
  }

  // ---- cost ----

  const BL_EXTRA: seq<nat> := [0, 0, 0, 0, 0, 0, 0, 0, 0, 0, 0, 0, 0, 0, 0, 0, 2, 3, 7]

  ghost predicate IsTally(f: seq<nat>, syms: seq<Sym>)
  {
    |f| == BL_CODES && forall c :: 0 <= c < BL_CODES ==> f[c] == TreeSender.Tally(syms, c)
  }

  lemma WidthIsExtra(s: Sym, acc: seq<nat>)
    requires Legal(s, acc)
    ensures s.code < BL_CODES && s.width == BL_EXTRA[s.code]
  {
  }

  /** All widths are those the format prescribes. */
  ghost predicate Widths(syms: seq<Sym>)
  {
    forall i :: 0 <= i < |syms| ==> syms[i].code < BL_CODES && syms[i].width == BL_EXTRA[syms[i].code]
  }

  lemma {:induction false} LegalWidths(syms: seq<Sym>, acc: seq<nat>)
    requires AllLegal(syms, acc)
    ensures Widths(syms)
    decreases |syms|
  {
    if syms != [] {
      WidthIsExtra(syms[0], acc);
      LegalWidths(syms[1..], acc + Expand1(syms[0], acc));
      forall i | 0 <= i < |syms| ensures syms[i].code < BL_CODES && syms[i].width == BL_EXTRA[syms[i].code] {
        if i > 0 { assert syms[i] == syms[1..][i - 1]; }
      }
    }
  }

  /** The symbols of a run-length form cost what their frequencies predict. */
  lemma {:induction false} SymCost(cl: seq<nat>, syms: seq<Sym>, f: seq<nat>)
    requires |cl| == BL_CODES && Within(cl, syms) && Widths(syms) && IsTally(f, syms)
    ensures |SymBits(cl, syms)| == BitCost(f, cl, cl, BL_EXTRA, BL_CODES)
    decreases |syms|
  {
    hide BitCost, SymBits, OneSym;
    if syms == [] {
      NoSymCost(cl, f);
    } else {
      var rest, s := syms[..|syms| - 1], syms[|syms| - 1];
      assert syms == rest + [s];
      var f' := f[s.code := f[s.code] - 1];
      assert IsTally(f', rest);
      SymCost(cl, rest, f');
      SymBitsOne(cl, s);
      SymBitsConcat(cl, rest, [s]);
      OneSymLength(cl, s);
      CostMore(f', cl, cl, BL_EXTRA, BL_CODES, s.code);
      assert f == f'[s.code := f'[s.code] + 1];
    }
  }

  lemma OneSymLength(cl: seq<nat>, s: Sym)
    requires s.code < |cl|
    ensures |OneSym(cl, s)| == cl[s.code] + s.width
  {
  }

  lemma NoSymCost(cl: seq<nat>, f: seq<nat>)
    requires |cl| == BL_CODES && |f| == BL_CODES && forall c :: 0 <= c < BL_CODES ==> f[c] == 0
    ensures Within(cl, []) && SymBits(cl, []) == [] && BitCost(f, cl, cl, BL_EXTRA, BL_CODES) == 0
  {
    ZeroCost(f, cl, BL_CODES);
  }

  lemma {:induction false} ZeroCost(f: seq<nat>, cl: seq<nat>, n: nat)
    requires |cl| == BL_CODES && |f| == BL_CODES && n <= BL_CODES && forall c :: 0 <= c < BL_CODES ==> f[c] == 0
    ensures BitCost(f, cl, cl, BL_EXTRA, n) == 0
  {
    if n > 0 { ZeroCost(f, cl, n - 1); }
  }
}
