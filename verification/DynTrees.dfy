/** build_bl_tree and send_all_trees of gzip.c: the tree for the code lengths of the
    other two trees, and the head of a dynamic block. */
module DynTrees {
  import opened Bits
  import opened Limits
  import opened Canonical
  import opened Inflate
  import opened Sums
  import opened CodeCost
  import opened RunLength
  import opened TreeSender
  import opened BuildTree
  import opened DynHeader
  import opened Coder
  import GenCodes
  import BitSink
  import Tokens
  import FirstPass

  // ---- code lengths followed by zeros give the same codes ----

  lemma UsedExtend(lens: seq<nat>, m: nat, b: nat)
    requires m <= |lens| && forall i :: m <= i < |lens| ==> lens[i] == 0
    ensures Used(lens[..m], b) == Used(lens, b)
  {
    if b > 0 {
      CountPrefix(lens, m, b, m);
      CountZeros(lens, m, b, |lens|);
    }
  }

  lemma {:induction false} FirstExtend(lens: seq<nat>, m: nat, b: nat)
    requires m <= |lens| && forall i :: m <= i < |lens| ==> lens[i] == 0
    ensures First(lens[..m], b) == First(lens, b)
  {
    if b > 0 {
      FirstExtend(lens, m, b - 1);
      UsedExtend(lens, m, b - 1);
    }
  }

  lemma CodeExtend(lens: seq<nat>, m: nat, s: nat)
    requires s < m <= |lens| && forall i :: m <= i < |lens| ==> lens[i] == 0
    ensures CodeBits(lens[..m], s) == CodeBits(lens, s)
  {
    FirstExtend(lens, m, lens[s]);
    CountPrefix(lens, m, lens[s], s);
  }

  /** The codes of a finished tree are ready for sending. */
  lemma ReadyFromCoded(f: seq<nat>, fc: seq<nat>, dl: seq<nat>, e: nat, maxCode: int, max: nat)
    requires Coded(f, fc, dl, e, maxCode, max)
    ensures Ready(CodeTree(fc, dl), dl[..maxCode + 1])
    ensures Decodable(dl[..maxCode + 1], 15) && Small(dl[..maxCode + 1])
  {
    hide GenCodes.Codes, Kraft;
  }

  /** The same for the table with all its trailing zeros. */
  lemma ReadyWhole(f: seq<nat>, fc: seq<nat>, dl: seq<nat>, e: nat, maxCode: int, max: nat)
    requires Coded(f, fc, dl, e, maxCode, max)
    ensures Ready(CodeTree(fc, dl), dl[..e]) && Decodable(dl[..e], max)
  {
    hide Kraft, Pow2, CodeBits, Lsb;
    var lens, m := dl[..e], maxCode + 1;
    assert lens[..m] == dl[..m];
    forall i | 0 <= i < e ensures lens[i] <= max { if i < m { assert dl[..m][i] <= max; } }
    KraftPrefix(lens, m, max, e);
    forall s | 0 <= s < e && lens[s] > 0 ensures GenCodes.Codes(fc[s], lens, s) {
      CodeExtend(lens, m, s);
      assert GenCodes.Codes(fc[s], dl[..m], s);
    }
  }

  lemma CodedFacts(f: seq<nat>, fc: seq<nat>, dl: seq<nat>, e: nat, maxCode: int, max: nat)
    requires Coded(f, fc, dl, e, maxCode, max)
    ensures |f| == e <= |fc| == |dl| && 1 <= maxCode < e && dl[maxCode] > 0
    ensures forall n :: 0 <= n <= maxCode ==> dl[n] < 16
    ensures forall n :: 0 <= n < e && f[n] != 0 ==> n <= maxCode && dl[n] > 0
    ensures forall n :: maxCode < n < e ==> dl[n] == 0
  {
    hide GenCodes.Codes, Kraft;
    forall n | 0 <= n <= maxCode ensures dl[n] < 16 { assert dl[..maxCode + 1][n] <= max; }
  }

  // ---- frequencies of the code length symbols ----

  lemma {:induction false} TallySum(syms: seq<Sym>, f: seq<nat>)
    requires IsTally(f, syms) && Widths(syms)
    ensures SumTo(f, BL_CODES) == |syms|
    decreases |syms|
  {
    hide SumTo;
    if syms == [] {
      Tokens.SumZeros(f, BL_CODES);
    } else {
      var rest, s := syms[..|syms| - 1], syms[|syms| - 1];
      var f' := f[s.code := f[s.code] - 1];
      assert IsTally(f', rest);
      TallySum(rest, f');
      Tokens.SumUpdate(f', s.code, f[s.code], BL_CODES);
      assert f'[s.code := f[s.code]] == f;
    }
  }

  lemma {:induction false} TallyPositive(syms: seq<Sym>, i: nat)
    requires i < |syms|
    ensures Tally(syms, syms[i].code) >= 1
    decreases |syms|
  {
    if i < |syms| - 1 { TallyPositive(syms[..|syms| - 1], i); }
  }

  /** Every symbol of a counted sequence has a code. */
  lemma CountedWithin(syms: seq<Sym>, f: seq<nat>, cl: seq<nat>)
    requires IsTally(f, syms) && Widths(syms) && |cl| == BL_CODES
    requires forall c :: 0 <= c < BL_CODES && f[c] != 0 ==> cl[c] > 0
    ensures Within(cl, syms)
  {
    forall i | 0 <= i < |syms| ensures syms[i].code < |cl| && cl[syms[i].code] > 0 { TallyPositive(syms, i); }
  }

  ghost predicate ZeroSym(s: Sym) { s.code == 0 || s.code >= 16 }

  /** A length that is not zero is sent, the first time, as itself. */
  lemma {:induction false} OnlyZeros(syms: seq<Sym>, acc: seq<nat>)
    requires (forall i :: 0 <= i < |syms| ==> ZeroSym(syms[i])) && forall i :: 0 <= i < |acc| ==> acc[i] == 0
    ensures forall i :: 0 <= i < |Expand(syms, acc)| ==> Expand(syms, acc)[i] == 0
    decreases |syms|
  {
    if syms != [] { OnlyZeros(syms[1..], acc + Expand1(syms[0], acc)); }
  }

  lemma NonZeroSent(lens: seq<nat>, k: nat)
    requires Small(lens) && k < |lens| && lens[k] > 0
    ensures exists i :: 0 <= i < |RunLengths(lens)| && 1 <= RunLengths(lens)[i].code < 16
  {
    hide RunLengths, Expand, AllLegal;
    RoundTrip(lens, []);
    assert [] + lens == lens;
    if forall i :: 0 <= i < |RunLengths(lens)| ==> ZeroSym(RunLengths(lens)[i]) {
      OnlyZeros(RunLengths(lens), []);
    }
  }

  /** The last code length code that has to be sent is among those after the first three. */
  method LastLength(dl: array<ush>) returns (maxBlindex: nat)
    requires dl.Length >= BL_CODES
    requires exists c :: 1 <= c < 16 && dl[c] > 0
    ensures 3 <= maxBlindex < BL_CODES && EndsAt(dl[..BL_CODES], maxBlindex + 1) && dl[CL_ORDER[maxBlindex]] > 0
  {
    ghost var c :| 1 <= c < 16 && dl[c] > 0;
    OrderAt(c);
    maxBlindex := BL_CODES - 1;
    while maxBlindex >= 3
      invariant 3 <= RankOf(c) <= maxBlindex < BL_CODES
      invariant forall i :: maxBlindex < i < BL_CODES ==> dl[CL_ORDER[i]] == 0
    {
      if dl[CL_ORDER[maxBlindex]] != 0 { break; }
      maxBlindex := maxBlindex - 1;
    }
  }

  /** The symbols sent for two tables of code lengths. */
  ghost function BothRuns(ll: seq<nat>, dl: seq<nat>): (r: seq<Sym>)
  {
    RunLengths(ll) + RunLengths(dl)
  }

  lemma RunWidths(lens: seq<nat>)
    requires Small(lens)
    ensures Widths(RunLengths(lens))
  {
    RoundTrip(lens, []);
    LegalWidths(RunLengths(lens), []);
  }

  lemma BothTallied(f0: seq<nat>, f1: seq<nat>, f2: seq<nat>, ll: seq<nat>, dl: seq<nat>)
    requires |f0| >= BL_CODES && (forall c :: 0 <= c < BL_CODES ==> f0[c] == 0) && Small(ll) && Small(dl)
    requires Counted(f1, f0, RunLengths(ll)) && Counted(f2, f1, RunLengths(dl))
    ensures IsTally(f2[..BL_CODES], BothRuns(ll, dl)) && Widths(BothRuns(ll, dl))
  {
    hide RunLengths, Tally;
    RunWidths(ll);
    RunWidths(dl);
    forall c | 0 <= c < BL_CODES
      ensures f2[c] == Tally(BothRuns(ll, dl), c)
    {
      TallyConcat(RunLengths(ll), RunLengths(dl), c);
    }
  }

  /** What build_bl_tree leaves behind: cl can code both tables, its last length in sending order is the k-th. */
  ghost predicate BlReady(t: CodeTree, cl: seq<nat>, ll: seq<nat>, dl: seq<nat>, k: nat)
  {
    |cl| == BL_CODES <= |t.code| && Ready(t, cl) && Decodable(cl, 7) && 4 <= k && EndsAt(cl, k) &&
    Within(cl, RunLengths(ll)) && Within(cl, RunLengths(dl))
  }

  /** Frequencies to finished bit length tree. */
  lemma BlReadyNow(f: seq<nat>, fc: seq<nat>, dl: seq<nat>, maxCode: int, lens: seq<nat>, lens': seq<nat>, k: nat)
    requires Coded(f, fc, dl, BL_CODES, maxCode, 7) && IsTally(f, BothRuns(lens, lens')) &&
      Widths(BothRuns(lens, lens'))
    requires 4 <= k && EndsAt(dl[..BL_CODES], k)
    ensures BlReady(CodeTree(fc, dl), dl[..BL_CODES], lens, lens', k)
  {
    hide Coded, RunLengths, Ready, Decodable;
    CodedFacts(f, fc, dl, BL_CODES, maxCode, 7);
    ReadyWhole(f, fc, dl, BL_CODES, maxCode, 7);
    CountedWithin(BothRuns(lens, lens'), f, dl[..BL_CODES]);
    SplitWithin(dl[..BL_CODES], RunLengths(lens), RunLengths(lens'));
  }

  lemma SplitWithin(cl: seq<nat>, a: seq<Sym>, b: seq<Sym>)
    requires Within(cl, a + b)
    ensures Within(cl, a) && Within(cl, b)
  {
    assert forall i :: 0 <= i < |a| ==> a[i] == (a + b)[i];
    assert forall i :: 0 <= i < |b| ==> b[i] == (a + b)[|a| + i];
  }

  lemma LiteralLength(f: seq<nat>, fc: seq<nat>, dl: seq<nat>, maxCode: int, lens: seq<nat>, lens': seq<nat>, k: nat)
    requires Coded(f, fc, dl, BL_CODES, maxCode, 7) && IsTally(f, BothRuns(lens, lens'))
    requires Small(lens) && k < |lens| && lens[k] > 0
    ensures exists c :: 1 <= c < 16 && dl[c] > 0
  {
    hide Coded, RunLengths;
    CodedFacts(f, fc, dl, BL_CODES, maxCode, 7);
    NonZeroSent(lens, k);
    var i :| 0 <= i < |RunLengths(lens)| && 1 <= RunLengths(lens)[i].code < 16;
    var all := BothRuns(lens, lens');
    assert all[i] == RunLengths(lens)[i];
    TallyPositive(all, i);
  }

  lemma BlCost(cl: seq<nat>, ll: seq<nat>, dl: seq<nat>, f: seq<nat>)
    requires |cl| == BL_CODES && IsTally(f, BothRuns(ll, dl)) && Widths(BothRuns(ll, dl))
    requires Within(cl, RunLengths(ll)) && Within(cl, RunLengths(dl))
    ensures BitCost(f, cl, cl, BL_EXTRA, BL_CODES) == |SymBits(cl, RunLengths(ll))| + |SymBits(cl, RunLengths(dl))|
  {
    hide BitCost, SymBits, RunLengths;
    SymBitsConcat(cl, RunLengths(ll), RunLengths(dl));
    SymCost(cl, BothRuns(ll, dl), f);
  }

  /** Count the symbols that the two tables will be sent with. */
  method ScanTrees(c: Coder, ghost lf: seq<nat>, ghost df: seq<nat>, ghost ll: seq<nat>, ghost dl: seq<nat>)
    requires c.Shape() && forall i :: 0 <= i < BL_CODES ==> c.blDesc.fc[i] == 0
    requires Coded(lf, c.lDesc.fc[..], c.lDesc.dl[..], L_CODES, c.lDesc.maxCode, 15)
    requires Coded(df, c.dDesc.fc[..], c.dDesc.dl[..], D_CODES, c.dDesc.maxCode, 15)
    requires ll == c.lDesc.dl[..c.lDesc.maxCode + 1] && dl == c.dDesc.dl[..c.dDesc.maxCode + 1]
    modifies c.blDesc.fc, c.lDesc.dl, c.dDesc.dl
    ensures 0 <= c.lDesc.maxCode < L_CODES && c.lDesc.dl[..] == old(c.lDesc.dl[..])[c.lDesc.maxCode + 1 := GUARD]
    ensures 0 <= c.dDesc.maxCode < D_CODES && c.dDesc.dl[..] == old(c.dDesc.dl[..])[c.dDesc.maxCode + 1 := GUARD]
    ensures IsTally(c.blDesc.fc[..BL_CODES], BothRuns(ll, dl)) && Widths(BothRuns(ll, dl)) && Small(ll) &&
      c.lDesc.maxCode < |ll| && ll[c.lDesc.maxCode] > 0
    ensures |BothRuns(ll, dl)| < 0x8000
  {
    hide Coded, RunLengths, SymBits, Counted, IsTally, Widths, BitCost, StaticOk, Tokens.Tab.Valid, LENGTH_EXTRA,
      DIST_EXTRA, BL_EXTRA;
    hide FirstPass.ExtraBits;
    CodedFacts(lf, c.lDesc.fc[..], c.lDesc.dl[..], L_CODES, c.lDesc.maxCode, 15);
    CodedFacts(df, c.dDesc.fc[..], c.dDesc.dl[..], D_CODES, c.dDesc.maxCode, 15);
    ghost var f0: seq<nat> := c.blDesc.fc[..];
    ScanTree(c.lDesc.dl, c.lDesc.maxCode, c.blDesc.fc);
    assert c.lDesc.dl[..c.lDesc.maxCode + 1] == ll;
    ghost var f1: seq<nat> := c.blDesc.fc[..];
    CountedBound(f1, f0, RunLengths(ll));
    assert forall i :: 0 <= i < BL_CODES ==> c.blDesc.fc[i] == f1[i];
    ScanTree(c.dDesc.dl, c.dDesc.maxCode, c.blDesc.fc);
    assert c.dDesc.dl[..c.dDesc.maxCode + 1] == dl;
    BothTallied(f0, f1, c.blDesc.fc[..], ll, dl);
    assert c.blDesc.fc[..][..BL_CODES] == c.blDesc.fc[..BL_CODES];
  }

  /** Build the tree for the code lengths; return the index in CL_ORDER of the last one to send. */
  method BuildBlTree(c: Coder, ghost lf: seq<nat>, ghost df: seq<nat>, ghost ll: seq<nat>, ghost dl: seq<nat>)
    returns (maxBlindex: nat)
    requires c.Shape() && forall i :: 0 <= i < BL_CODES ==> c.blDesc.fc[i] == 0
    requires Coded(lf, c.lDesc.fc[..], c.lDesc.dl[..], L_CODES, c.lDesc.maxCode, 15)
    requires Coded(df, c.dDesc.fc[..], c.dDesc.dl[..], D_CODES, c.dDesc.maxCode, 15)
    requires ll == c.lDesc.dl[..c.lDesc.maxCode + 1] && dl == c.dDesc.dl[..c.dDesc.maxCode + 1]
    modifies c.work, c.work.heap, c.work.depth, c.work.blCount, c.blDesc`maxCode, c.blDesc.fc, c.blDesc.dl, c.lDesc.dl,
      c.dDesc.dl
    ensures c.lDesc.dl[..] == old(c.lDesc.dl[..])[c.lDesc.maxCode + 1 := GUARD]
    ensures c.dDesc.dl[..] == old(c.dDesc.dl[..])[c.dDesc.maxCode + 1 := GUARD]
    ensures BlReady(CodeTree(c.blDesc.fc[..], c.blDesc.dl[..]), c.blDesc.dl[..BL_CODES], ll, dl, maxBlindex + 1)
    ensures c.work.optLen == old(c.work.optLen) + |SymBits(c.blDesc.dl[..BL_CODES], RunLengths(ll))|
              + |SymBits(c.blDesc.dl[..BL_CODES], RunLengths(dl))| + 3 * (maxBlindex + 1) + 14
    ensures c.work.staticLen == old(c.work.staticLen)
  {
    hide Coded, RunLengths, SymBits, IsTally, Widths, BitCost, StaticOk, Tokens.Tab.Valid, LENGTH_EXTRA, DIST_EXTRA,
      BL_EXTRA;
    hide FirstPass.ExtraBits, EndsAt, Small, SumTo, Cheapest, Huffman, Merges.Shallow, BlReady;
    ScanTrees(c, lf, df, ll, dl);
    ghost var f: seq<nat> := c.blDesc.fc[..BL_CODES];
    TallySum(BothRuns(ll, dl), f);
    var hist, weight := Build(c.work, c.blDesc);
    LiteralLength(f, c.blDesc.fc[..], c.blDesc.dl[..], c.blDesc.maxCode, ll, dl, c.lDesc.maxCode);
    maxBlindex := LastLength(c.blDesc.dl);
    assert c.blDesc.dl[..][..BL_CODES] == c.blDesc.dl[..BL_CODES];
    BlReadyNow(f, c.blDesc.fc[..], c.blDesc.dl[..], c.blDesc.maxCode, ll, dl, maxBlindex + 1);
    BlExtras(c.blDesc);
    BlWithin(CodeTree(c.blDesc.fc[..], c.blDesc.dl[..]), c.blDesc.dl[..BL_CODES], ll, dl, maxBlindex + 1);
    BlCost(c.blDesc.dl[..BL_CODES], ll, dl, f);
    c.work.optLen := c.work.optLen + 3 * (maxBlindex + 1) + 5 + 5 + 4;
  }

  lemma BlWithin(t: CodeTree, cl: seq<nat>, ll: seq<nat>, dl: seq<nat>, k: nat)
    requires BlReady(t, cl, ll, dl, k)
    ensures Within(cl, RunLengths(ll)) && Within(cl, RunLengths(dl))
  {
    hide RunLengths, Within;
  }

  lemma BlExtras(d: TreeDesc)
    requires d.Valid() && d.elems == BL_CODES && d.extra == BL_EXTRA && d.extraBase == 0
    ensures d.Extras() == BL_EXTRA
  {
  }

  // ---- sending ----

  method SendLengthLengths(sink: BitSink.Sink, cl: seq<nat>, blcodes: nat)
    requires sink.Valid() && |cl| == BL_CODES && Bounded(cl, 7) && blcodes <= BL_CODES
    modifies sink, sink.outbuf
    ensures sink.Valid() && sink.Stream() == old(sink.Stream()) + ClBits(cl, blcodes)
  {
    hide ClBits, Lsb, Pow2, CL_ORDER;
    Pow2Values();
    ghost var st := sink.Stream();
    NoClBits(cl);
    assert st == st + ClBits(cl, 0);
    for rank := 0 to blcodes
      invariant sink.Valid() && sink.Stream() == st + ClBits(cl, rank)
    {
      OrderBelow(rank);
      var v := cl[CL_ORDER[rank]];
      sink.SendBits(v, 3);
      ClBitsStep(cl, rank);
      assert (st + ClBits(cl, rank)) + Lsb(v, 3) == st + (ClBits(cl, rank) + Lsb(v, 3));
    }
  }

  lemma NoClBits(cl: seq<nat>)
    requires |cl| == BL_CODES
    ensures ClBits(cl, 0) == []
  {
  }

  lemma OrderBelow(i: nat)
    requires i < BL_CODES
    ensures i < |CL_ORDER| && CL_ORDER[i] < BL_CODES
  {
  }

  /** Send the head of a dynamic block; ltree and dtree carry the guard after their last code. */
  method SendAllTrees(sink: BitSink.Sink, ltree: seq<nat>, dtree: seq<nat>, bl: CodeTree, lcodes: nat, dcodes: nat,
                      blcodes: nat,
                      ghost cl: seq<nat>)
    requires sink.Valid() && 257 <= lcodes < |ltree| && lcodes <= L_CODES && 1 <= dcodes < |dtree| && dcodes <= D_CODES
    requires Small(ltree[..lcodes]) && ltree[lcodes] == GUARD && Small(dtree[..dcodes]) && dtree[dcodes] == GUARD
    requires BlReady(bl, cl, ltree[..lcodes], dtree[..dcodes], blcodes) && cl == bl.len[..BL_CODES]
    modifies sink, sink.outbuf
    ensures sink.Valid() &&
      sink.Stream() == old(sink.Stream()) + TablesBits(ltree[..lcodes], dtree[..dcodes], cl, blcodes)
  {
    hide Lsb, ClBits, SymBits, RunLengths, Pow2, Ready, Within, EndsAt, Kraft, BitSink.Sink.Valid, BitSink.Sink.Stream;
    BlFacts(cl, blcodes);
    ReadyShape(bl, cl);
    Pow2Values();
    ghost var st, ll, dl := sink.Stream(), ltree[..lcodes], dtree[..dcodes];
    sink.SendBits(lcodes - 257, 5);
    sink.SendBits(dcodes - 1, 5);
    sink.SendBits(blcodes - 4, 4);
    SendLengthLengths(sink, bl.len[..BL_CODES], blcodes);
    assert ltree[..lcodes - 1 + 1] == ll && dtree[..dcodes - 1 + 1] == dl;
    SendTree(sink, ltree, lcodes - 1, bl, cl);
    SendTree(sink, dtree, dcodes - 1, bl, cl);
    Regroup(st, Lsb(lcodes - 257, 5), Lsb(dcodes - 1, 5), Lsb(blcodes - 4, 4), ClBits(cl, blcodes),
            SymBits(cl, RunLengths(ll)), SymBits(cl, RunLengths(dl)));
  }

  lemma ReadyShape(t: CodeTree, lens: seq<nat>)
    requires Ready(t, lens)
    ensures |t.code| == |t.len|
  {
  }

  lemma BlFacts(cl: seq<nat>, k: nat)
    requires EndsAt(cl, k)
    ensures |cl| == BL_CODES && k <= BL_CODES
  {
  }

  lemma Regroup(st: seq<bool>, a: seq<bool>, b: seq<bool>, c: seq<bool>, d: seq<bool>, e: seq<bool>, f: seq<bool>)
    ensures st + a + b + c + d + e + f == st + (a + (b + (c + (d + (e + f)))))
  {
  }
}
