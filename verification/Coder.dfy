/** The block coder's state in gzip.c (the second set of globals), with init_block,
    ct_init and ct_tally. */
module Coder {
  import opened Bits
  import opened Limits
  import opened Inflate
  import opened Sums
  import opened Tokens
  import opened BuildTree
  import opened TreeSender
  import TokenBuffer
  import DynHeader
  import StaticTrees
  import CT = CodeTables

  class Coder {
    const work: Work
    const lDesc: TreeDesc
    const dDesc: TreeDesc
    const blDesc: TreeDesc
    const staticL: CodeTree
    const staticD: CodeTree
    const buf: TokenBuffer.Buffer
    const tab: Tab
    var compressedLen: nat    // bits sent since the start of the compressed data

    /** What never changes after initialization. */
    ghost predicate Shape()
    {
      work.Valid() && lDesc.Valid() && dDesc.Valid() && blDesc.Valid() && tab.Valid() &&
      lDesc.elems == L_CODES && lDesc.extra == LENGTH_EXTRA && lDesc.extraBase == 257 && lDesc.maxLength == 15 &&
      dDesc.elems == D_CODES && dDesc.extra == DIST_EXTRA && dDesc.extraBase == 0 && dDesc.maxLength == 15 &&
      blDesc.elems == BL_CODES && blDesc.extra == DynHeader.BL_EXTRA && blDesc.extraBase == 0 &&
        blDesc.maxLength == 7 &&
      lDesc.stat == Some(staticL.len) && dDesc.stat == Some(staticD.len) && blDesc.stat == None &&
      work.heap != lDesc.fc && work.heap != lDesc.dl && StaticOk(staticL, staticD)
    }

    /** Between blocks and while tokens are collected: the frequencies are those of the tokens. */
    ghost predicate Valid()
      reads work, buf, buf.lBuf, buf.dBuf, buf.flagBuf, lDesc.fc, dDesc.fc, blDesc.fc
    {
      Shape() && buf.Valid() && ItemsOk(buf.items) &&
      lDesc.fc[..L_CODES] == LFreq(tab, buf.items) && dDesc.fc[..D_CODES] == DFreq(tab, buf.items) &&
      (forall c :: 0 <= c < BL_CODES ==> blDesc.fc[c] == 0) &&
      work.optLen == 0 && work.staticLen == 0
    }

    /** ct_init, with the descriptors set up as pack_gzip does. */
    constructor ()
      ensures Valid() && buf.items == [] && compressedLen == 0
      ensures fresh(work) && fresh(work.heap) && fresh(work.depth) && fresh(work.blCount)
      ensures fresh(lDesc) && fresh(lDesc.fc) && fresh(lDesc.dl) && fresh(dDesc) && fresh(dDesc.fc) && fresh(dDesc.dl)
      ensures fresh(blDesc) && fresh(blDesc.fc) && fresh(blDesc.dl)
      ensures fresh(buf) && fresh(buf.lBuf) && fresh(buf.dBuf) && fresh(buf.flagBuf)
    {
      var tables := new CT.Tables();
      var t := Snapshot(tables);
      var sl := StaticTrees.InitLiteral();
      var sd := StaticTrees.InitDistance();
      DescBounds();
      var w := new Work();
      var l := new TreeDesc(L_CODES, LENGTH_EXTRA, 257, 15, Some(sl.len));
      var d := new TreeDesc(D_CODES, DIST_EXTRA, 0, 15, Some(sd.len));
      var bl := new TreeDesc(BL_CODES, DynHeader.BL_EXTRA, 0, 7, None);
      var b := new TokenBuffer.Buffer();
      l.fc[END_OF_BLOCK] := 1;
      work, lDesc, dDesc, blDesc := w, l, d, bl;
      staticL, staticD, buf, tab := sl, sd, b, t;
      compressedLen := 0;
      new;
      EmptyFreqs(tab);
      assert lDesc.fc[..L_CODES] == LFreq(tab, []);
      assert dDesc.fc[..D_CODES] == DFreq(tab, []);
    }

    /** init_block: forget the tokens of the last block. */
    method InitBlock()
      requires Shape() && buf.Valid()
      modifies work`optLen, work`staticLen, buf, lDesc.fc, dDesc.fc, blDesc.fc
      ensures Valid() && buf.items == []
    {
      hide LFreq, DFreq, Tab.Valid, StaticOk, LENGTH_EXTRA, DIST_EXTRA;
      ClearFreq(lDesc.fc, L_CODES);
      ClearFreq(dDesc.fc, D_CODES);
      ClearFreq(blDesc.fc, BL_CODES);
      lDesc.fc[END_OF_BLOCK] := 1;
      work.optLen, work.staticLen := 0, 0;
      buf.Clear();
      EmptyFreqs(tab);
      assert lDesc.fc[..L_CODES] == LFreq(tab, []);
      assert dDesc.fc[..D_CODES] == DFreq(tab, []);
    }
  }

  /** Five bits and the extra bits for each of the first n distance codes as often as it occurs. */
  ghost function DistBits(f: seq<nat>, n: nat): (b: nat)
    requires n <= |f| && n <= D_CODES
  {
    if n == 0 then 0 else DistBits(f, n - 1) + f[n - 1] * (5 + DIST_EXTRA[n - 1])
  }

  /** A guess at the compressed length in bytes: a byte for each token, and the distances. */
  ghost function Guess(tab: Tab, items: seq<Item>): (n: nat)
    requires tab.Valid() && ItemsOk(items)
  {
    (8 * |items| + DistBits(DFreq(tab, items), D_CODES)) / 8
  }

  /** The block ends here: a buffer is full or, after every 4096 tokens, few of them are matches and it seems to
      compress well. */
  ghost predicate EndsBlock(tab: Tab, items: seq<Item>, inLength: int)
    requires tab.Valid() && ItemsOk(items)
  {
    var n, m := |items|, TokenBuffer.Matches(items, |items|);
    (n % 0x1000 == 0 && m < n / 2 && Guess(tab, items) < inLength / 2) || n == LIT_BUFSIZE - 1 || m == DIST_BUFSIZE
  }

  method EstimateLength(lastLit: nat, freq: array<ush>) returns (outLength: nat)
    requires freq.Length >= D_CODES
    ensures outLength == (8 * lastLit + DistBits(freq[..D_CODES], D_CODES)) / 8
  {
    hide DIST_EXTRA;
    ghost var f: seq<nat> := freq[..D_CODES];
    ExtraTable();
    outLength := lastLit * 8;
    for dcode := 0 to D_CODES
      invariant outLength == 8 * lastLit + DistBits(f, dcode)
    {
      assert f[dcode] == freq[dcode];
      outLength := outLength + freq[dcode] * (5 + DIST_EXTRA[dcode]);
    }
    outLength := outLength / 8;
  }

  lemma ExtraTable()
    ensures |DIST_EXTRA| == D_CODES
  {
  }

  /** The token ct_tally records; dist is 0 for a literal. */
  ghost function TokenOf(dist: nat, lc: byte): (item: Item)
    requires dist <= 0x8000
    ensures ItemOk(item)
  {
    if dist == 0 then Literal(lc) else Match(lc + MIN_MATCH, dist)
  }

  method Increment(fc: array<ush>, s: nat, ghost elems: nat)
    requires s < elems <= fc.Length && fc[s] < 0xffff
    modifies fc
    ensures fc[..elems] == old(fc[..elems])[s := old(fc[s]) + 1]
  {
    fc[s] := fc[s] + 1;
  }

  /** The frequency part of ct_tally. */
  method CountToken(lfc: array<ush>, dfc: array<ush>, tab: Tab, dist: nat, lc: byte, ghost items: seq<Item>)
    requires tab.Valid() && ItemsOk(items) && dist <= 0x8000 && |items| < 0x8000
    requires lfc.Length >= L_CODES && dfc.Length >= D_CODES && lfc != dfc
    requires lfc[..L_CODES] == LFreq(tab, items) && dfc[..D_CODES] == DFreq(tab, items)
    modifies lfc, dfc
    ensures ItemsOk(items + [TokenOf(dist, lc)])
    ensures lfc[..L_CODES] == LFreq(tab, items + [TokenOf(dist, lc)]) &&
      dfc[..D_CODES] == DFreq(tab, items + [TokenOf(dist, lc)])
  {
    hide LFreq, DFreq, LSym, DSym, Tab.Valid;
    ghost var lf: seq<nat>, df: seq<nat> := lfc[..L_CODES], dfc[..D_CODES];
    FreqPush(tab, items, TokenOf(dist, lc));
    FreqSmall(tab, items);
    SymOf(tab, dist, lc);
    if dist == 0 {
      assert lfc[lc] == lf[lc];
      Increment(lfc, lc, L_CODES);
    } else {
      var ls, ds := tab.lengthCode[lc] + 257, tab.DCode(dist - 1);
      assert lfc[ls] == lf[ls] && dfc[ds] == df[ds];
      Increment(lfc, ls, L_CODES);
      Increment(dfc, ds, D_CODES);
    }
  }

  /** The block then ends with one more token, in its buffers and in its counts alike; true exactly if it must end
      here. */
  method CtTally(c: Coder, dist: nat, lc: byte, inLength: int) returns (flush: bool)
    requires c.Valid() && |c.buf.items| + 1 < LIT_BUFSIZE && dist <= 0x8000
    modifies c.buf, c.buf.lBuf, c.buf.dBuf, c.buf.flagBuf, c.lDesc.fc, c.dDesc.fc
    ensures c.Valid() && c.buf.items == old(c.buf.items) + [TokenOf(dist, lc)]
    ensures flush == EndsBlock(c.tab, c.buf.items, inLength)
    ensures !flush ==> |c.buf.items| + 1 < LIT_BUFSIZE
  {
    hide LFreq, DFreq, StaticOk, LENGTH_EXTRA, DIST_EXTRA, Tab.Valid, TokenBuffer.Represents, DistBits,
      TokenBuffer.FlagByte;
    TokenBuffer.Shape(c.buf.items, c.buf.lBuf[..], c.buf.dBuf[..], c.buf.flagBuf[..]);
    assert c.buf.dBuf.Length == 8192;
    CountToken(c.lDesc.fc, c.dDesc.fc, c.tab, dist, lc, c.buf.items);
    c.buf.Push(dist, lc);
    if c.buf.lastLit % 0x1000 == 0 {
      var outLength := EstimateLength(c.buf.lastLit, c.dDesc.fc);
      if c.buf.lastDist < c.buf.lastLit / 2 && outLength < inLength / 2 { return true; }
    }
    return c.buf.lastLit == LIT_BUFSIZE - 1 || c.buf.lastDist == DIST_BUFSIZE;
  }

  lemma SymOf(tab: Tab, dist: nat, lc: byte)
    requires tab.Valid() && dist <= 0x8000
    ensures |tab.lengthCode| == |tab.shortCode| == |tab.longCode| == 256
    ensures dist == 0 ==> LSym(tab, TokenOf(dist, lc)) == lc
    ensures dist != 0 ==> LSym(tab, TokenOf(dist, lc)) == 257 + tab.lengthCode[lc] < L_CODES &&
                          DSym(tab, TokenOf(dist, lc)) == tab.DCode(dist - 1) < D_CODES
  {
  }

  lemma FreqSmall(tab: Tab, items: seq<Item>)
    requires tab.Valid() && ItemsOk(items)
    ensures forall n :: 0 <= n < L_CODES ==> LFreq(tab, items)[n] <= |items| + 1
    ensures forall n :: 0 <= n < D_CODES ==> DFreq(tab, items)[n] <= |items|
  {
    hide LFreq, DFreq, Tab.Valid;
    FreqSums(tab, items);
    forall n | 0 <= n < L_CODES
      ensures LFreq(tab, items)[n] <= |items| + 1
    {
      TermWithin(LFreq(tab, items), n, L_CODES);
    }
    forall n | 0 <= n < D_CODES ensures DFreq(tab, items)[n] <= |items| { TermWithin(DFreq(tab, items), n, D_CODES); }
  }

  lemma {:induction false} TermWithin(f: seq<nat>, k: nat, n: nat)
    requires k < n <= |f|
    ensures f[k] <= SumTo(f, n)
  {
    if k < n - 1 { TermWithin(f, k, n - 1); } else { SumNonNegative(f, n - 1); }
  }

  ghost predicate StaticOk(l: CodeTree, d: CodeTree)
  {
    l.len == FixedLengths() && |l.code| == 288 && Ready(l, FixedLengths()) &&
    |d.len| == |d.code| == D_CODES && (forall n :: 0 <= n < D_CODES ==> d.len[n] == 5) && Ready(d, FixedDistances())
  }

  method ClearFreq(fc: array<ush>, elems: nat)
    requires elems <= fc.Length
    modifies fc
    ensures forall n :: 0 <= n < fc.Length ==> fc[n] == if n < elems then 0 else old(fc[n])
  {
    for n := 0 to elems
      invariant forall i :: 0 <= i < fc.Length ==> fc[i] == if i < n then 0 else old(fc[i])
    {
      fc[n] := 0;
    }
  }

  lemma DescBounds()
    ensures Pow2(15) >= L_CODES && Pow2(7) >= BL_CODES
    ensures |LENGTH_EXTRA| == 29 && |DIST_EXTRA| == 30 && |DynHeader.BL_EXTRA| == 19
    ensures forall j :: 0 <= j < 30 && j < 3 ==> DIST_EXTRA[j] == 0
    ensures forall j :: 0 <= j < 19 && j < 3 ==> DynHeader.BL_EXTRA[j] == 0
  {
    Pow2Values();
  }

  lemma EmptyFreqs(tab: Tab)
    requires tab.Valid()
    ensures forall n :: 0 <= n < L_CODES ==> LFreq(tab, [])[n] == if n == END_OF_BLOCK then 1 else 0
    ensures forall n :: 0 <= n < D_CODES ==> DFreq(tab, [])[n] == 0
  {
    hide Tab.Valid;
  }

  /** The tables of ct_init, which do not change afterwards. */
  method Snapshot(tables: CT.Tables) returns (tab: Tab)
    requires tables.Valid()
    ensures tab.Valid()
  {
    tab := Tab(tables.lengthCode[..], tables.distCode[..256], tables.distCode[256..], tables.baseLength[..],
      tables.baseDist[..]);
    forall dist | 0 <= dist < 0x8000
      ensures tab.DCode(dist) < D_CODES && CT.DistOk(dist, tab.DCode(dist), tab.baseDist[tab.DCode(dist)])
    {
      assert tab.DCode(dist) == tables.DCode(dist);
    }
  }
}
