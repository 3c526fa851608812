/** flush_block of gzip.c: choose the best of the three encodings for the current
    block and send it. */
module FlushBlock {
  import opened Bits
  import opened Limits
  import opened Canonical
  import opened Inflate
  import opened CodeCost
  import opened Sums
  import opened Tokens
  import opened RunLength
  import opened TreeSender
  import opened BuildTree
  import opened DynHeader
  import opened DynTrees
  import opened Coder
  import opened BlockReads
  import opened CompressBlock
  import BitSink
  import FirstPass
  import GenCodes
  import TokenBuffer

  // ---- the trees of a block can code its tokens ----

  lemma CodableItems(tab: Tab, items: seq<Item>, lf: seq<nat>, df: seq<nat>, ll: seq<nat>, dl: seq<nat>)
    requires tab.Valid() && ItemsOk(items) && lf == LFreq(tab, items) && df == DFreq(tab, items)
    requires forall n :: 0 <= n < L_CODES && lf[n] != 0 ==> n < |ll| && ll[n] > 0
    requires forall n :: 0 <= n < D_CODES && df[n] != 0 ==> n < |dl| && dl[n] > 0
    ensures AllCodable(tab, ll, dl, items) && |ll| > END_OF_BLOCK && ll[END_OF_BLOCK] > 0
  {
    hide LFreq, DFreq, Tab.Valid, LSym, DSym;
    FreqPositive(tab, items, 0);
    forall i | 0 <= i < |items| ensures Codable(tab, ll, dl, items[i]) { FreqPositive(tab, items, i); }
  }

  lemma CoversItems(tab: Tab, items: seq<Item>, lf: seq<nat>, df: seq<nat>, usedL: seq<nat>, usedD: seq<nat>)
    requires tab.Valid() && ItemsOk(items) && lf == LFreq(tab, items) && df == DFreq(tab, items)
    requires |usedL| == L_CODES && forall n :: 0 <= n < L_CODES && lf[n] != 0 ==> usedL[n] != 0
    requires |usedD| == D_CODES && forall n :: 0 <= n < D_CODES && df[n] != 0 ==> usedD[n] != 0
    ensures Covers(tab, items, usedL, usedD)
  {
    hide LFreq, DFreq, Tab.Valid, LSym, DSym;
    FreqPositive(tab, items, 0);
    forall i | 0 <= i < |items|
      ensures usedL[LSym(tab, items[i])] != 0 && (items[i].Match? ==> usedD[DSym(tab, items[i])] != 0)
    {
      FreqPositive(tab, items, i);
    }
  }

  lemma StaticCodable(tab: Tab, items: seq<Item>)
    requires tab.Valid() && ItemsOk(items)
    ensures AllCodable(tab, FixedLengths(), FixedDistances(), items)
  {
    hide Tab.Valid, LSym, DSym;
  }

  /** With the fixed codes no token takes more than 32 bits. */
  lemma {:induction false} StaticBound(tab: Tab, items: seq<Item>)
    requires tab.Valid() && ItemsOk(items) && AllCodable(tab, FixedLengths(), FixedDistances(), items)
    ensures |DataBits(tab, FixedLengths(), FixedDistances(), items)| <= 32 * |items|
    decreases |items|
  {
    hide Tab.Valid, LSym, DSym, ItemBits, LExtras;
    if items != [] {
      StaticBound(tab, items[1..]);
      var lx := LengthExtras();
      ItemCost(tab, FixedLengths(), FixedDistances(), items[0], lx);
      ExtraBound(LSym(tab, items[0]), lx);
      if items[0].Match? { DistExtraSmall(DSym(tab, items[0])); }
    }
  }

  ghost function LengthExtras(): (x: seq<nat>)
    ensures LExtras(x)
  {
    FirstPass.ExtraBits(LENGTH_EXTRA, 257, L_CODES)
  }

  lemma ExtraBound(s: nat, lx: seq<nat>)
    requires LExtras(lx) && s < L_CODES
    ensures lx[s] <= 5
  {
    if s >= 257 { ExtraSmall(s - 257); }
  }

  lemma LExtrasOf(d: TreeDesc)
    requires d.Valid() && d.elems == L_CODES && d.extra == LENGTH_EXTRA && d.extraBase == 257
    ensures LExtras(d.Extras())
  {
  }

  lemma DExtrasOf(d: TreeDesc)
    requires d.Valid() && d.elems == D_CODES && d.extra == DIST_EXTRA && d.extraBase == 0
    ensures d.Extras() == DIST_EXTRA
  {
  }

  /** Predicted and actual size of the data of a block, with dynamic and with static trees. */
  lemma BlockCosts(tab: Tab, items: seq<Item>, lf: seq<nat>, df: seq<nat>, lens: seq<nat>, dlens: seq<nat>,
                   ll: seq<nat>, dl: seq<nat>, stD: seq<nat>, lx: seq<nat>)
    requires tab.Valid() && ItemsOk(items) && lf == LFreq(tab, items) && df == DFreq(tab, items) && LExtras(lx)
    requires |lens| == L_CODES && forall n :: 0 <= n < L_CODES && lf[n] != 0 ==> lens[n] != 0
    requires |dlens| == D_CODES && forall n :: 0 <= n < D_CODES && df[n] != 0 ==> dlens[n] != 0
    requires ll <= lens && dl <= dlens && AllCodable(tab, ll, dl, items) && |ll| > END_OF_BLOCK
    requires |stD| == D_CODES && forall n :: 0 <= n < D_CODES ==> stD[n] == 5
    ensures AllCodable(tab, FixedLengths(), FixedDistances(), items)
    ensures BitCost(lf, lens, lens, lx, L_CODES) + BitCost(df, dlens, dlens, DIST_EXTRA, D_CODES)
            == |DataBits(tab, ll, dl, items)| + ll[END_OF_BLOCK]
    ensures BitCost(lf, lens, FixedLengths(), lx, L_CODES) + BitCost(df, dlens, stD, DIST_EXTRA, D_CODES)
            == |DataBits(tab, FixedLengths(), FixedDistances(), items)| + 7
  {
    hide LFreq, DFreq, Tab.Valid, LSym, DSym, BitCost, LExtras, AllCodable, Covers, DataBits, DIST_EXTRA;
    StaticCodable(tab, items);
    CoversItems(tab, items, lf, df, lens, dlens);
    DataCost(tab, ll, dl, items, lens, lens, dlens, dlens, lx);
    FixedEnd();
    DataCost(tab, FixedLengths(), FixedDistances(), items, lens, FixedLengths(), dlens, stD, lx);
  }

  /** Everything flush_block knows before it chooses. */
  ghost predicate Prepared(c: Coder, items: seq<Item>, ll: seq<nat>, dl: seq<nat>, cl: seq<nat>, k: nat)
    reads c.work, c.buf, c.buf.lBuf, c.buf.dBuf, c.buf.flagBuf, c.lDesc, c.dDesc, c.lDesc.fc, c.lDesc.dl, c.dDesc.fc,
      c.dDesc.dl,
      c.blDesc.fc, c.blDesc.dl
  {
    c.Shape() && c.buf.Valid() && c.buf.items == items && ItemsOk(items) && FlagsSaved(items, c.buf.flagBuf[..]) &&
    256 <= c.lDesc.maxCode < L_CODES && 1 <= c.dDesc.maxCode < D_CODES &&
    ll == c.lDesc.dl[..c.lDesc.maxCode + 1] && c.lDesc.dl[c.lDesc.maxCode + 1] == GUARD &&
    dl == c.dDesc.dl[..c.dDesc.maxCode + 1] && c.dDesc.dl[c.dDesc.maxCode + 1] == GUARD &&
    cl == c.blDesc.dl[..BL_CODES] && BlReady(CodeTree(c.blDesc.fc[..], c.blDesc.dl[..]), cl, ll, dl, k) &&
    TreesReady(CodeTree(c.lDesc.fc[..], c.lDesc.dl[..]), CodeTree(c.dDesc.fc[..], c.dDesc.dl[..]), ll, dl) &&
    Decodable(ll, 15) && Decodable(dl, 15) && Small(ll) && Small(dl) &&
    AllCodable(c.tab, ll, dl, items) && AllCodable(c.tab, FixedLengths(), FixedDistances(), items) &&
    c.work.optLen == 14 + 3 * k + |SymBits(cl, RunLengths(ll))| + |SymBits(cl, RunLengths(dl))|
                     + |DataBits(c.tab, ll, dl, items)| + ll[END_OF_BLOCK] &&
    c.work.staticLen == |DataBits(c.tab, FixedLengths(), FixedDistances(), items)| + 7
  }

  /** The flags of the tokens after the last full byte get a byte, too. */
  method SaveFlags(buf: TokenBuffer.Buffer)
    requires buf.Valid()
    modifies buf.flagBuf
    ensures buf.Valid() && FlagsSaved(buf.items, buf.flagBuf[..])
  {
    hide TokenBuffer.FlagByte, TokenBuffer.Matches;
    TokenBuffer.Shape(buf.items, buf.lBuf[..], buf.dBuf[..], buf.flagBuf[..]);
    FlagsFit(buf.items);
    buf.flagBuf[buf.lastFlags] := buf.flags;
  }

  lemma FlagsFit(items: seq<Item>)
    ensures TokenBuffer.FlagByte(items, 8 * (|items| / 8), |items| % 8) < 256
  {
    Pow2Mono(|items| % 8, 8);
    Pow2Values();
  }

  lemma SumsSmall(tab: Tab, items: seq<Item>)
    requires tab.Valid() && ItemsOk(items) && |items| < LIT_BUFSIZE
    ensures SumTo(LFreq(tab, items), L_CODES) < 0x8000 && SumTo(DFreq(tab, items), D_CODES) < 0x8000
  {
    hide LFreq, DFreq, Tab.Valid;
    FreqSums(tab, items);
  }

  lemma CoderApart(c: Coder)
    requires c.Shape()
    ensures c.work.depth.Length == 573 && Apart(c.work, c.lDesc) && Apart(c.work, c.dDesc) && Apart(c.work, c.blDesc)
    ensures c.lDesc.elems == L_CODES && c.dDesc.elems == D_CODES && c.lDesc.fc.Length == c.lDesc.dl.Length == 573
    ensures c.dDesc.fc.Length == c.dDesc.dl.Length == 61 && c.blDesc.fc.Length == c.blDesc.dl.Length == 39
    ensures c.lDesc.stat == Some(FixedLengths()) && c.dDesc.stat == Some(c.staticD.len) &&
      c.lDesc.maxLength == c.dDesc.maxLength == 15
    ensures c.tab.Valid() && |c.staticD.len| == D_CODES && forall n :: 0 <= n < D_CODES ==> c.staticD.len[n] == 5
    ensures LExtras(c.lDesc.Extras()) && c.dDesc.Extras() == DIST_EXTRA
  {
    LExtrasOf(c.lDesc);
    DExtrasOf(c.dDesc);
  }

  /** The literal and distance trees of the block, before the guards are set in them. */
  ghost predicate TwoTrees(c: Coder, items: seq<Item>, ll: seq<nat>, dl: seq<nat>)
    reads c.work, c.lDesc, c.dDesc, c.lDesc.fc, c.lDesc.dl, c.dDesc.fc, c.dDesc.dl
  {
    c.Shape() && ItemsOk(items) &&
    Coded(LFreq(c.tab, items), c.lDesc.fc[..], c.lDesc.dl[..], L_CODES, c.lDesc.maxCode, 15) &&
    Coded(DFreq(c.tab, items), c.dDesc.fc[..], c.dDesc.dl[..], D_CODES, c.dDesc.maxCode, 15) &&
    256 <= c.lDesc.maxCode < L_CODES && 1 <= c.dDesc.maxCode < D_CODES &&
    ll == c.lDesc.dl[..c.lDesc.maxCode + 1] && dl == c.dDesc.dl[..c.dDesc.maxCode + 1] &&
    AllCodable(c.tab, ll, dl, items) && AllCodable(c.tab, FixedLengths(), FixedDistances(), items) &&
      ll[END_OF_BLOCK] > 0 &&
    c.work.optLen == |DataBits(c.tab, ll, dl, items)| + ll[END_OF_BLOCK] &&
    c.work.staticLen == |DataBits(c.tab, FixedLengths(), FixedDistances(), items)| + 7
  }

  method BuildTwoTrees(c: Coder) returns (ghost ll: seq<nat>, ghost dl: seq<nat>)
    requires c.Valid()
    modifies c.work, c.work.heap, c.work.depth, c.work.blCount
    modifies c.lDesc`maxCode, c.lDesc.fc, c.lDesc.dl, c.dDesc`maxCode, c.dDesc.fc, c.dDesc.dl
    ensures TwoTrees(c, c.buf.items, ll, dl)
  {
    hide LFreq, DFreq, Tab.Valid, LSym, DSym, BitCost, LExtras, AllCodable, DataBits, StaticOk, Coded, SumTo, Apart,
      Cheapest, Huffman, Merges.Shallow;
    hide TokenBuffer.Represents, TokenBuffer.FlagByte, TokenBuffer.Matches, FixedLengths, FixedDistances, LENGTH_EXTRA,
      DIST_EXTRA;
    ghost var items, tab := c.buf.items, c.tab;
    assert |items| < LIT_BUFSIZE by { TokenBuffer.Shape(items, c.buf.lBuf[..], c.buf.dBuf[..], c.buf.flagBuf[..]); }
    ghost var lf: seq<nat>, df: seq<nat> := LFreq(tab, items), DFreq(tab, items);
    SumsSmall(tab, items);
    CoderApart(c);
    var hist, weight := Build(c.work, c.lDesc);
    assert c.dDesc.fc[..D_CODES] == df;
    hist, weight := Build(c.work, c.dDesc);
    CodedFacts(lf, c.lDesc.fc[..], c.lDesc.dl[..], L_CODES, c.lDesc.maxCode, 15);
    CodedFacts(df, c.dDesc.fc[..], c.dDesc.dl[..], D_CODES, c.dDesc.maxCode, 15);
    ll, dl := c.lDesc.dl[..c.lDesc.maxCode + 1], c.dDesc.dl[..c.dDesc.maxCode + 1];
    TwoTreesNow(c, items, lf, df, ll, dl);
  }

  lemma TwoTreesNow(c: Coder, items: seq<Item>, lf: seq<nat>, df: seq<nat>, ll: seq<nat>, dl: seq<nat>)
    requires c.Shape() && ItemsOk(items) && lf == LFreq(c.tab, items) && df == DFreq(c.tab, items)
    requires Coded(lf, c.lDesc.fc[..], c.lDesc.dl[..], L_CODES, c.lDesc.maxCode, 15)
    requires Coded(df, c.dDesc.fc[..], c.dDesc.dl[..], D_CODES, c.dDesc.maxCode, 15)
    requires 0 <= c.lDesc.maxCode < L_CODES && 0 <= c.dDesc.maxCode < D_CODES && c.lDesc.dl.Length == 573 &&
      c.dDesc.dl.Length == 61
    requires ll == c.lDesc.dl[..c.lDesc.maxCode + 1] && dl == c.dDesc.dl[..c.dDesc.maxCode + 1]
    requires c.work.optLen == BitCost(lf, c.lDesc.dl[..L_CODES], c.lDesc.dl[..L_CODES], c.lDesc.Extras(), L_CODES)
                              + BitCost(df, c.dDesc.dl[..D_CODES], c.dDesc.dl[..D_CODES], c.dDesc.Extras(), D_CODES)
    requires c.work.staticLen == BitCost(lf, c.lDesc.dl[..L_CODES], FixedLengths(), c.lDesc.Extras(), L_CODES)
                              + BitCost(df, c.dDesc.dl[..D_CODES], c.staticD.len, c.dDesc.Extras(), D_CODES)
    ensures TwoTrees(c, items, ll, dl)
  {
    hide LFreq, DFreq, Tab.Valid, LSym, DSym, BitCost, LExtras, AllCodable, DataBits, StaticOk, Coded, Apart,
      FixedLengths, FixedDistances, LENGTH_EXTRA, DIST_EXTRA;
    CoderApart(c);
    CodedFacts(lf, c.lDesc.fc[..], c.lDesc.dl[..], L_CODES, c.lDesc.maxCode, 15);
    CodedFacts(df, c.dDesc.fc[..], c.dDesc.dl[..], D_CODES, c.dDesc.maxCode, 15);
    CodableItems(c.tab, items, lf, df, ll, dl);
    BlockCosts(c.tab, items, lf, df, c.lDesc.dl[..L_CODES], c.dDesc.dl[..D_CODES], ll, dl, c.staticD.len,
      c.lDesc.Extras());
  }

  lemma TreesReadyNow(f: seq<nat>, fc: seq<nat>, dl0: seq<nat>, e: nat, maxCode: int, dl1: seq<nat>)
    requires Coded(f, fc, dl0, e, maxCode, 15) && e < |dl0| && dl1 == dl0[maxCode + 1 := GUARD]
    ensures Ready(CodeTree(fc, dl1), dl0[..maxCode + 1]) && |fc| >= e && dl1[..maxCode + 1] == dl0[..maxCode + 1]
    ensures Decodable(dl0[..maxCode + 1], 15) && Small(dl0[..maxCode + 1])
  {
    hide GenCodes.Codes, Kraft, FullCode, CodeBits;
    ReadyFromCoded(f, fc, dl0, e, maxCode, 15);
  }

  /** The buffers do not share memory with the trees. */
  lemma BufApart(c: Coder)
    requires c.buf.Valid()
    ensures c.buf.flagBuf.Length == 1024 && c.buf.lBuf.Length == c.buf.dBuf.Length == 8192
  {
    hide TokenBuffer.Represents, TokenBuffer.FlagByte, TokenBuffer.Matches;
    TokenBuffer.Shape(c.buf.items, c.buf.lBuf[..], c.buf.dBuf[..], c.buf.flagBuf[..]);
  }

  method FinishTrees(c: Coder, ghost items: seq<Item>, ghost ll: seq<nat>, ghost dl: seq<nat>)
    returns (maxBlindex: nat, ghost cl: seq<nat>)
    requires TwoTrees(c, items, ll, dl) && forall i :: 0 <= i < BL_CODES ==> c.blDesc.fc[i] == 0
    requires c.buf.Valid() && c.buf.items == items && FlagsSaved(items, c.buf.flagBuf[..])
    modifies c.work, c.work.heap, c.work.depth, c.work.blCount, c.blDesc`maxCode, c.blDesc.fc, c.blDesc.dl, c.lDesc.dl,
      c.dDesc.dl
    ensures Prepared(c, items, ll, dl, cl, maxBlindex + 1)
  {
    hide LFreq, DFreq, Tab.Valid, AllCodable, DataBits, StaticOk, Coded, Apart, SymBits, RunLengths;
    hide TokenBuffer.Represents, TokenBuffer.FlagByte, TokenBuffer.Matches, FixedLengths, FixedDistances, LENGTH_EXTRA,
      DIST_EXTRA;
    hide FlagsSaved, BlReady, Ready, Decodable, Small, Prepared, LExtras;
    CoderApart(c);
    BufApart(c);
    ghost var l0: seq<nat>, d0: seq<nat> := c.lDesc.dl[..], c.dDesc.dl[..];
    maxBlindex := BuildBlTree(c, LFreq(c.tab, items), DFreq(c.tab, items), ll, dl);
    cl := c.blDesc.dl[..BL_CODES];
    PreparedNow(c, items, ll, dl, cl, maxBlindex + 1, l0, d0);
  }

  /** All the trees of the block, and the predicted sizes. */
  method BuildTrees(c: Coder) returns (maxBlindex: nat, ghost ll: seq<nat>, ghost dl: seq<nat>, ghost cl: seq<nat>)
    requires c.Valid()
    modifies c.work, c.work.heap, c.work.depth, c.work.blCount, c.buf.flagBuf
    modifies c.lDesc`maxCode, c.lDesc.fc, c.lDesc.dl, c.dDesc`maxCode, c.dDesc.fc, c.dDesc.dl, c.blDesc`maxCode,
      c.blDesc.fc, c.blDesc.dl
    ensures Prepared(c, c.buf.items, ll, dl, cl, maxBlindex + 1)
  {
    hide LFreq, DFreq, Tab.Valid, StaticOk, Apart, TwoTrees, Prepared, FlagsSaved, LExtras;
    hide TokenBuffer.Represents, TokenBuffer.FlagByte, TokenBuffer.Matches, FixedLengths, FixedDistances, LENGTH_EXTRA,
      DIST_EXTRA;
    CoderApart(c);
    BufApart(c);
    SaveFlags(c.buf);
    ll, dl := BuildTwoTrees(c);
    maxBlindex, cl := FinishTrees(c, c.buf.items, ll, dl);
  }

  lemma PreparedNow(c: Coder, items: seq<Item>, ll: seq<nat>, dl: seq<nat>, cl: seq<nat>, k: nat, l0: seq<nat>,
                    d0: seq<nat>)
    requires c.Shape() && c.buf.Valid() && c.buf.items == items && ItemsOk(items) &&
      FlagsSaved(items, c.buf.flagBuf[..])
    requires Coded(LFreq(c.tab, items), c.lDesc.fc[..], l0, L_CODES, c.lDesc.maxCode, 15)
    requires Coded(DFreq(c.tab, items), c.dDesc.fc[..], d0, D_CODES, c.dDesc.maxCode, 15)
    requires 256 <= c.lDesc.maxCode < L_CODES < |l0| && 1 <= c.dDesc.maxCode < D_CODES < |d0|
    requires ll == l0[..c.lDesc.maxCode + 1] && dl == d0[..c.dDesc.maxCode + 1]
    requires c.lDesc.dl[..] == l0[c.lDesc.maxCode + 1 := GUARD] && c.dDesc.dl[..] == d0[c.dDesc.maxCode + 1 := GUARD]
    requires cl == c.blDesc.dl[..BL_CODES] && BlReady(CodeTree(c.blDesc.fc[..], c.blDesc.dl[..]), cl, ll, dl, k)
    requires AllCodable(c.tab, ll, dl, items) && AllCodable(c.tab, FixedLengths(), FixedDistances(), items) &&
      ll[END_OF_BLOCK] > 0
    requires c.work.optLen == 14 + 3 * k + |SymBits(cl, RunLengths(ll))| + |SymBits(cl, RunLengths(dl))|
                     + |DataBits(c.tab, ll, dl, items)| + ll[END_OF_BLOCK]
    requires c.work.staticLen == |DataBits(c.tab, FixedLengths(), FixedDistances(), items)| + 7
    ensures Prepared(c, items, ll, dl, cl, k)
  {
    hide LFreq, DFreq, Tab.Valid, AllCodable, DataBits, StaticOk, Coded, SymBits, RunLengths;
    hide TokenBuffer.Represents, TokenBuffer.FlagByte, TokenBuffer.Matches, FixedLengths, FixedDistances, LENGTH_EXTRA,
      DIST_EXTRA;
    hide FlagsSaved, BlReady, Ready, Decodable, Small;
    TreesReadyNow(LFreq(c.tab, items), c.lDesc.fc[..], l0, L_CODES, c.lDesc.maxCode, c.lDesc.dl[..]);
    TreesReadyNow(DFreq(c.tab, items), c.dDesc.fc[..], d0, D_CODES, c.dDesc.maxCode, c.dDesc.dl[..]);
    assert c.lDesc.dl[..][..c.lDesc.maxCode + 1] == c.lDesc.dl[..c.lDesc.maxCode + 1];
    assert c.dDesc.dl[..][..c.dDesc.maxCode + 1] == c.dDesc.dl[..c.dDesc.maxCode + 1];
  }

  // ---- the three ways to send the block ----

  /** The form of a block, by its number in the block header. */
  datatype Form = StoredForm | StaticForm | DynamicForm

  function KindOf(f: Form): (k: nat)
  {
    match f case StoredForm => 0 case StaticForm => 1 case DynamicForm => 2
  }

  /** What was sent after s0 starts with the header of a block of the form. */
  ghost predicate Opens(s0: seq<bool>, s1: seq<bool>, f: Form, eof: bool)
  {
    s0 + Lsb(2 * KindOf(f) + Flag(eof), 3) <= s1
  }

  /** The length after a block header and the bits up to the next byte. */
  function Aligned(n: nat): (r: nat) { (n + 3 + 7) / 8 * 8 }

  /** The bytes that a block header and n bits take. */
  function InBytes(n: int): (r: int) { (n + 3 + 7) / 8 }

  /** The bits a form takes when n bits have been sent: predicted, without looking at the stream. */
  function FormBits(f: Form, n: nat, optLen: int, staticLen: int, storedLen: nat): (b: int)
  {
    match f
    case StoredForm => Aligned(n) + 8 * (storedLen + 4) - n
    case StaticForm => 3 + staticLen
    case DynamicForm => 3 + optLen
  }

  /** The bytes by which the forms are compared. */
  function FormBytes(f: Form, optLen: int, staticLen: int, storedLen: nat): (b: int)
  {
    match f
    case StoredForm => storedLen + 4
    case StaticForm => InBytes(staticLen)
    case DynamicForm => InBytes(optLen)
  }

  method SendStored(sink: BitSink.Sink, data: seq<byte>, eof: bool, ghost out: seq<byte>)
    requires sink.Valid() && |data| < 0x10000
    modifies sink, sink.outbuf
    ensures sink.Valid() && old(sink.Stream()) <= sink.Stream()
    ensures ReadsBlock(sink.Stream(), old(|sink.Stream()|), eof, out, out + data)
    ensures |sink.Stream()| == ByteAlign(old(|sink.Stream()|) + 3) + 8 * (|data| + 4)
    ensures Opens(old(sink.Stream()), sink.Stream(), StoredForm, eof)
  {
    hide Lsb, Pow2, BlockIs, BitSink.Padded, ByteBits, ByteAlign;
    ghost var st := sink.Stream();
    Pow2Values();
    sink.SendBits(Flag(eof), 3);
    sink.CopyBlock(data);
    ghost var s1 := StoredStream(st, eof, data);
    assert sink.Stream() == s1;
    PadLength(st, Lsb(Flag(eof), 3));
    PaddedPrefix(st, Lsb(Flag(eof), 3), s1, BitSink.Padded(st + Lsb(Flag(eof), 3)));
    assert st <= st + Lsb(Flag(eof), 3);
    forall bits | s1 <= bits
      ensures BlockIs(bits, |st|, |s1|, eof, out, out + data)
    {
      StoredReads(st, eof, data, out, bits);
    }
  }

  ghost function StaticBits(tab: Tab, items: seq<Item>, eof: bool): (x: seq<bool>)
    requires tab.Valid() && AllCodable(tab, FixedLengths(), FixedDistances(), items)
    ensures |x| == 3 + |DataBits(tab, FixedLengths(), FixedDistances(), items)| + 7
  {
    FixedEnd();
    Lsb(2 + Flag(eof), 3) +
      (DataBits(tab, FixedLengths(), FixedDistances(), items) + CodeBits(FixedLengths(), END_OF_BLOCK))
  }

  method SendStatic(c: Coder, sink: BitSink.Sink, eof: bool, ghost out: seq<byte>)
    requires c.Shape() && c.buf.Valid() && FlagsSaved(c.buf.items, c.buf.flagBuf[..]) && Fits(c.buf.items, out)
    requires AllCodable(c.tab, FixedLengths(), FixedDistances(), c.buf.items)
    requires sink.Valid() && sink.outbuf != c.buf.lBuf
    modifies sink, sink.outbuf
    ensures sink.Valid() && old(sink.Stream()) <= sink.Stream()
    ensures ReadsBlock(sink.Stream(), old(|sink.Stream()|), eof, out, ExpandItems(c.buf.items, out))
    ensures |sink.Stream()| == old(|sink.Stream()|) + 3 +
      |DataBits(c.tab, FixedLengths(), FixedDistances(), c.buf.items)| + 7
    ensures Opens(old(sink.Stream()), sink.Stream(), StaticForm, eof)
  {
    hide Lsb, Pow2, BlockIs, Tab.Valid, AllCodable, DataBits, CodeBits, FixedLengths, FixedDistances, Ready, Fits,
      ExpandItems;
    hide TokenBuffer.Represents, TokenBuffer.FlagByte, TokenBuffer.Matches, LENGTH_EXTRA, DIST_EXTRA, FlagsSaved;
    ghost var st, items := sink.Stream(), c.buf.items;
    BufApart(c);
    StaticReady(c);
    Pow2Values();
    sink.SendBits(2 + Flag(eof), 3);
    Send(sink, c.buf, c.tab, c.staticL, c.staticD, FixedLengths(), FixedDistances());
    ghost var s1 := st + StaticBits(c.tab, items, eof);
    SeqSum(st, Lsb(2 + Flag(eof), 3),
      DataBits(c.tab, FixedLengths(), FixedDistances(), items) + CodeBits(FixedLengths(), END_OF_BLOCK));
    assert sink.Stream() == s1;
    forall bits | s1 <= bits ensures BlockIs(bits, |st|, |s1|, eof, out, ExpandItems(items, out)) {
      StaticReads(st, eof, c.tab, items, out, bits);
    }
  }

  lemma StaticReady(c: Coder)
    requires c.Shape()
    ensures TreesReady(c.staticL, c.staticD, FixedLengths(), FixedDistances()) && c.tab.Valid()
  {
    hide Ready;
  }

  method SendDynamic(c: Coder, sink: BitSink.Sink, eof: bool, maxBlindex: nat, ghost ll: seq<nat>, ghost dl: seq<nat>,
                     ghost cl: seq<nat>,
                     ghost out: seq<byte>)
    requires Prepared(c, c.buf.items, ll, dl, cl, maxBlindex + 1) && Fits(c.buf.items, out)
    requires sink.Valid() && sink.outbuf != c.buf.lBuf
    modifies sink, sink.outbuf
    ensures sink.Valid() && old(sink.Stream()) <= sink.Stream()
    ensures ReadsBlock(sink.Stream(), old(|sink.Stream()|), eof, out, ExpandItems(c.buf.items, out))
    ensures |sink.Stream()| == old(|sink.Stream()|) + 3 + c.work.optLen
    ensures Opens(old(sink.Stream()), sink.Stream(), DynamicForm, eof)
  {
    hide Lsb, Pow2, BlockIs, Tab.Valid, AllCodable, DataBits, CodeBits, FixedLengths, FixedDistances, Ready, Fits,
      ExpandItems;
    hide TokenBuffer.Represents, TokenBuffer.FlagByte, TokenBuffer.Matches, LENGTH_EXTRA, DIST_EXTRA, FlagsSaved;
    hide RunLengths, SymBits, TablesBits, BlReady, Decodable, Small, StaticOk, Apart, LExtras;
    ghost var st, items := sink.Stream(), c.buf.items;
    BufApart(c);
    CoderApart(c);
    BlReadyFacts(CodeTree(c.blDesc.fc[..], c.blDesc.dl[..]), cl, ll, dl, maxBlindex + 1);
    Pow2Values();
    var lcodes, dcodes := c.lDesc.maxCode + 1, c.dDesc.maxCode + 1;
    var lt, dt := CodeTree(c.lDesc.fc[..], c.lDesc.dl[..]), CodeTree(c.dDesc.fc[..], c.dDesc.dl[..]);
    var bt := CodeTree(c.blDesc.fc[..], c.blDesc.dl[..]);
    assert lt.len[..lcodes] == ll && dt.len[..dcodes] == dl && bt.len[..BL_CODES] == cl;
    sink.SendBits(4 + Flag(eof), 3);
    SendAllTrees(sink, lt.len, dt.len, bt, lcodes, dcodes, maxBlindex + 1, cl);
    Send(sink, c.buf, c.tab, lt, dt, ll, dl);
    DynamicSent(st, c.tab, items, ll, dl, cl, maxBlindex + 1, eof, out, sink.Stream());
  }

  lemma BlReadyFacts(t: CodeTree, cl: seq<nat>, ll: seq<nat>, dl: seq<nat>, k: nat)
    requires BlReady(t, cl, ll, dl, k)
    ensures |cl| == BL_CODES && Decodable(cl, 7) && 4 <= k <= BL_CODES && EndsAt(cl, k)
    ensures Within(cl, RunLengths(ll)) && Within(cl, RunLengths(dl))
  {
    hide Decodable;
  }

  lemma DynamicSent(st: seq<bool>, tab: Tab, items: seq<Item>, ll: seq<nat>, dl: seq<nat>, cl: seq<nat>, k: nat,
                    eof: bool,
                    out: seq<byte>, s1: seq<bool>)
    requires tab.Valid() && 257 <= |ll| <= 286 && 1 <= |dl| <= 30 && 4 <= k && EndsAt(cl, k) && Small(ll) && Small(dl)
    requires Decodable(cl, 7) && Decodable(ll, 15) && Decodable(dl, 15) && ll[END_OF_BLOCK] > 0
    requires Within(cl, RunLengths(ll)) && Within(cl, RunLengths(dl))
    requires AllCodable(tab, ll, dl, items) && Fits(items, out)
    requires s1 == st + Lsb(4 + Flag(eof), 3) + TablesBits(ll, dl, cl, k) +
      (DataBits(tab, ll, dl, items) + CodeBits(ll, END_OF_BLOCK))
    ensures st <= s1 && ReadsBlock(s1, |st|, eof, out, ExpandItems(items, out)) && Opens(st, s1, DynamicForm, eof)
    ensures |s1| == |st| + 3 + 14 + 3 * k + |SymBits(cl, RunLengths(ll))| + |SymBits(cl, RunLengths(dl))| +
                    |DataBits(tab, ll, dl, items)| + ll[END_OF_BLOCK]
  {
    hide Lsb, BlockIs, Tab.Valid, AllCodable, DataBits, Fits, ExpandItems, Decodable, RunLengths, SymBits, Small,
      Within, EndsAt;
    BlShape(cl, k);
    var h, t, x := Lsb(4 + Flag(eof), 3), TablesBits(ll, dl, cl, k),
      DataBits(tab, ll, dl, items) + CodeBits(ll, END_OF_BLOCK);
    SeqSum(st, h, t);
    SeqSum(st, h + t, x);
    SeqSum(h, t, x);
    assert s1 == st + (h + (t + x));
    forall bits | s1 <= bits ensures BlockIs(bits, |st|, |s1|, eof, out, ExpandItems(items, out)) {
      DynReads(st, eof, tab, ll, dl, cl, k, items, out, bits);
    }
  }

  /** The stored form of a block is chosen only for short blocks. */
  lemma StoredShort(tab: Tab, items: seq<Item>, staticLen: nat)
    requires tab.Valid() && ItemsOk(items) && |items| < LIT_BUFSIZE &&
      AllCodable(tab, FixedLengths(), FixedDistances(), items)
    requires staticLen == |DataBits(tab, FixedLengths(), FixedDistances(), items)| + 7
    ensures InBytes(staticLen) < 0x8000
  {
    hide Tab.Valid, AllCodable, FixedLengths, FixedDistances, DataBits;
    StaticBound(tab, items);
  }

  /** The form that takes the fewest bytes, stored only if the bytes are at hand; of two equal ones the one that is
      earlier in the order stored, static, dynamic. */
  ghost predicate IsBest(f: Form, optLen: int, staticLen: int, stored: Option<seq<byte>>, storedLen: nat)
  {
    (f.StoredForm? ==> stored.Some?) &&
    forall g: Form :: (g.StoredForm? ==> stored.Some?) ==>
      FormBytes(f, optLen, staticLen, storedLen) <= FormBytes(g, optLen, staticLen, storedLen) &&
      (FormBytes(f, optLen, staticLen, storedLen) == FormBytes(g, optLen, staticLen, storedLen) ==>
        KindOf(f) <= KindOf(g))
  }

  lemma BestOfThree(optLen: int, staticLen: int, stored: Option<seq<byte>>, storedLen: nat, optLenb: int,
                    staticLenb: int)
    requires optLenb == InBytes(optLen) && staticLenb == InBytes(staticLen)
    ensures stored.Some? && storedLen + 4 <= optLenb && storedLen + 4 <= staticLenb ==>
      IsBest(StoredForm, optLen, staticLen, stored, storedLen)
    ensures !(stored.Some? && storedLen + 4 <= optLenb && storedLen + 4 <= staticLenb) && staticLenb <= optLenb ==>
      IsBest(StaticForm, optLen, staticLen, stored, storedLen)
    ensures !(stored.Some? && storedLen + 4 <= optLenb && storedLen + 4 <= staticLenb) && staticLenb > optLenb ==>
      IsBest(DynamicForm, optLen, staticLen, stored, storedLen)
  {
  }

  /** Send the block by the shortest of the three encodings; the bits sent are exactly the bits predicted for it. */
  method SendBest(c: Coder, sink: BitSink.Sink, stored: Option<seq<byte>>, storedLen: nat, eof: bool, maxBlindex: nat,
                  ghost ll: seq<nat>, ghost dl: seq<nat>, ghost cl: seq<nat>, ghost out: seq<byte>, ghost base: nat)
    returns (ghost form: Form)
    requires Prepared(c, c.buf.items, ll, dl, cl, maxBlindex + 1) && Fits(c.buf.items, out)
    requires stored.Some? ==> |stored.value| == storedLen && ExpandItems(c.buf.items, out) == out + stored.value
    requires sink.Valid() && sink.outbuf != c.buf.lBuf && |sink.Stream()| == base + c.compressedLen && base % 8 == 0
    modifies sink, sink.outbuf, c`compressedLen
    ensures sink.Valid() && old(sink.Stream()) <= sink.Stream()
    ensures ReadsBlock(sink.Stream(), old(|sink.Stream()|), eof, out, ExpandItems(c.buf.items, out))
    ensures |sink.Stream()| == base + c.compressedLen
    ensures Opens(old(sink.Stream()), sink.Stream(), form, eof)
    ensures c.compressedLen == old(c.compressedLen) +
      FormBits(form, old(c.compressedLen), c.work.optLen, c.work.staticLen, storedLen)
    ensures IsBest(form, c.work.optLen, c.work.staticLen, stored, storedLen)
  {
    hide Tab.Valid, AllCodable, DataBits, FixedLengths, FixedDistances, Fits, ExpandItems, ReadsBlock, Prepared,
      Coder.Shape;
    hide TokenBuffer.Buffer.Valid, FlagsSaved, ByteAlign, Opens, IsBest, Aligned, InBytes;
    PreparedFacts(c, c.buf.items, ll, dl, cl, maxBlindex + 1);
    StoredShort(c.tab, c.buf.items, c.work.staticLen);
    var optLenb, staticLenb := InBytes(c.work.optLen), InBytes(c.work.staticLen);
    BestOfThree(c.work.optLen, c.work.staticLen, stored, storedLen, optLenb, staticLenb);
    if staticLenb <= optLenb { optLenb := staticLenb; }
    if storedLen + 4 <= optLenb && stored.Some? {
      AlignBase(base, c.compressedLen);
      SendStored(sink, stored.value, eof, out);
      form := StoredForm;
      c.compressedLen := Aligned(c.compressedLen);
      c.compressedLen := c.compressedLen + (storedLen + 4) * 8;
    } else if staticLenb == optLenb {
      SendStatic(c, sink, eof, out);
      form := StaticForm;
      c.compressedLen := c.compressedLen + 3 + c.work.staticLen;
    } else {
      SendDynamic(c, sink, eof, maxBlindex, ll, dl, cl, out);
      form := DynamicForm;
      c.compressedLen := c.compressedLen + 3 + c.work.optLen;
    }
  }

  lemma AlignBase(base: nat, n: nat)
    requires base % 8 == 0
    ensures ByteAlign(base + n + 3) == base + Aligned(n)
  {
    var q := base / 8;
    assert base + n + 10 == 8 * q + (n + 10);
  }

  lemma PreparedFacts(c: Coder, items: seq<Item>, ll: seq<nat>, dl: seq<nat>, cl: seq<nat>, k: nat)
    requires Prepared(c, items, ll, dl, cl, k)
    ensures c.Shape() && c.tab.Valid() && c.buf.Valid() && c.buf.items == items && ItemsOk(items) &&
      |items| < LIT_BUFSIZE
    ensures FlagsSaved(items, c.buf.flagBuf[..]) && AllCodable(c.tab, FixedLengths(), FixedDistances(), items)
    ensures c.buf.flagBuf.Length == 1024 && c.buf.lBuf.Length == c.buf.dBuf.Length == 8192
    ensures c.work.staticLen == |DataBits(c.tab, FixedLengths(), FixedDistances(), items)| + 7 
  {
    hide Tab.Valid, AllCodable, DataBits, FixedLengths, FixedDistances, FlagsSaved, BlReady, Ready, Decodable, Small,
      StaticOk;
    hide TokenBuffer.Represents, TokenBuffer.FlagByte, TokenBuffer.Matches;
    BufApart(c);
    TokenBuffer.Shape(c.buf.items, c.buf.lBuf[..], c.buf.dBuf[..], c.buf.flagBuf[..]);
  }

  method SendBlock(c: Coder, sink: BitSink.Sink, stored: Option<seq<byte>>, storedLen: nat, eof: bool,
                   ghost out: seq<byte>, ghost base: nat)
    requires c.Valid() && Fits(c.buf.items, out)
    requires stored.Some? ==> |stored.value| == storedLen && ExpandItems(c.buf.items, out) == out + stored.value
    requires sink.Valid() && sink.outbuf != c.buf.lBuf && |sink.Stream()| == base + c.compressedLen && base % 8 == 0
    modifies c, c.work, c.work.heap, c.work.depth, c.work.blCount, c.buf.flagBuf, sink, sink.outbuf
    modifies c.lDesc`maxCode, c.lDesc.fc, c.lDesc.dl, c.dDesc`maxCode, c.dDesc.fc, c.dDesc.dl, c.blDesc`maxCode,
      c.blDesc.fc, c.blDesc.dl
    ensures c.Shape() && c.buf.Valid() && sink.Valid() && old(sink.Stream()) <= sink.Stream()
    ensures ReadsBlock(sink.Stream(), old(|sink.Stream()|), eof, out, ExpandItems(c.buf.items, out))
    ensures |sink.Stream()| == base + c.compressedLen
  {
    hide Tab.Valid, Fits, ExpandItems, ReadsBlock, Prepared, Coder.Shape, LFreq, DFreq, TokenBuffer.Buffer.Valid;
    hide Apart, LExtras, FixedLengths, DIST_EXTRA;
    ghost var items := c.buf.items;
    BufApart(c);
    CoderApart(c);
    ghost var st := sink.Stream();
    var maxBlindex, ll, dl, cl := BuildTrees(c);
    assert sink.Stream() == st;
    var form := SendBest(c, sink, stored, storedLen, eof, maxBlindex, ll, dl, cl, out, base);
    PreparedFacts(c, items, ll, dl, cl, maxBlindex + 1);
  }

  /** The block becomes part of the stream; stored holds its bytes if they are still in the window, and the tokens
      must stand for them. At the end of the input total is the number of bytes sent. */
  method FlushBlock(c: Coder, sink: BitSink.Sink, stored: Option<seq<byte>>, storedLen: nat, eof: bool,
                    ghost out: seq<byte>, ghost base: nat)
    returns (total: nat, ghost s1: seq<bool>)
    requires c.Valid() && Fits(c.buf.items, out)
    requires stored.Some? ==> |stored.value| == storedLen && ExpandItems(c.buf.items, out) == out + stored.value
    requires sink.Valid() && sink.outbuf != c.buf.lBuf && |sink.Stream()| == base + c.compressedLen && base % 8 == 0
    modifies c, c.work, c.work.heap, c.work.depth, c.work.blCount, c.buf, c.buf.flagBuf, sink, sink.outbuf
    modifies c.lDesc`maxCode, c.lDesc.fc, c.lDesc.dl, c.dDesc`maxCode, c.dDesc.fc, c.dDesc.dl, c.blDesc`maxCode,
      c.blDesc.fc, c.blDesc.dl
    ensures c.Valid() && c.buf.items == [] && sink.Valid()
    ensures old(sink.Stream()) <= s1 &&
      ReadsBlock(s1, old(|sink.Stream()|), eof, out, old(ExpandItems(c.buf.items, out)))
    ensures sink.Stream() == if eof then BitSink.Padded(s1) else s1
    ensures !eof ==> |s1| == base + c.compressedLen
    ensures eof ==> |sink.Stream()| == base + 8 * total && sink.biValid == 0
  {
    hide Tab.Valid, Fits, ExpandItems, ReadsBlock, Coder.Shape, LFreq, DFreq, TokenBuffer.Buffer.Valid, BitSink.Padded;
    BufApart(c);
    SendBlock(c, sink, stored, storedLen, eof, out, base);
    s1 := sink.Stream();
    c.InitBlock();
    assert sink.Stream() == s1;
    assert c.Valid();
    total := WindUp(c, sink, eof, base);
  }

  method WindUp(c: Coder, sink: BitSink.Sink, eof: bool, ghost base: nat) returns (total: nat)
    requires sink.Valid() && |sink.Stream()| == base + c.compressedLen && base % 8 == 0
    modifies sink, sink.outbuf, c`compressedLen
    ensures sink.Valid() && sink.Stream() == if eof then BitSink.Padded(old(sink.Stream())) else old(sink.Stream())
    ensures eof ==> |sink.Stream()| == base + 8 * total && sink.biValid == 0
    ensures !eof ==> c.compressedLen == old(c.compressedLen)
  {
    hide BitSink.Padded;
    if eof {
      ghost var s := sink.Stream();
      sink.BiWindup();
      c.compressedLen := c.compressedLen + 7;
      PaddedBytes(s, base, sink.Stream(), c.compressedLen);
    }
    return c.compressedLen / 8;
  }

  lemma PaddedBytes(s: seq<bool>, base: nat, p: seq<bool>, n: nat)
    requires p == BitSink.Padded(s) && base % 8 == 0 && |s| + 7 == base + n
    ensures |p| == base + 8 * (n / 8)
  {
  }
}
