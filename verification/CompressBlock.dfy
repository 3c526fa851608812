/** compress_block of gzip.c: send the tokens of a block with given Huffman trees. */
module CompressBlock {
  import opened Bits
  import opened Limits
  import opened Canonical
  import opened Inflate
  import opened Tokens
  import opened TokenBuffer
  import CT = CodeTables
  import opened TreeSender
  import BitSink

  /** A pair of trees ready for sending; ll and dl are the code lengths a decoder uses. */
  ghost predicate TreesReady(lt: CodeTree, dt: CodeTree, ll: seq<nat>, dl: seq<nat>)
  {
    Ready(lt, ll) && Ready(dt, dl) && |lt.code| >= L_CODES && |dt.code| >= D_CODES &&
    |ll| > END_OF_BLOCK && ll[END_OF_BLOCK] > 0
  }

  /** The length code and its extra bits. */
  method SendLength(sink: BitSink.Sink, tab: Tab, t: CodeTree, lc: byte, ghost ll: seq<nat>, ghost item: Item)
    requires sink.Valid() && tab.Valid() && Ready(t, ll) && |t.code| >= L_CODES
    requires ItemOk(item) && item.Match? && lc == item.len - MIN_MATCH && LSym(tab, item) < |ll| &&
      ll[LSym(tab, item)] > 0
    modifies sink, sink.outbuf
    ensures sink.Valid()
    ensures sink.Stream() == old(sink.Stream()) +
              (CodeBits(ll, LSym(tab, item)) + Lsb(LExtra(tab, item), LENGTH_EXTRA[tab.lengthCode[item.len - 3]]))
  {
    hide CodeBits, Lsb, Pow2, Ready, Tab.Valid, BitSink.Sink.Valid, BitSink.Sink.Stream, LENGTH_EXTRA;
    LengthFacts(tab, lc);
    ghost var st := sink.Stream();
    var code := tab.lengthCode[lc];
    SendCode(sink, t, code + 257, ll);
    var extra := LENGTH_EXTRA[code];
    if extra != 0 {
      sink.SendBits(lc - tab.baseLength[code], extra);
    } else {
      NoBits(LExtra(tab, item));
    }
    SeqSum(st, CodeBits(ll, code + 257), Lsb(LExtra(tab, item), extra));
  }

  lemma LengthFacts(tab: Tab, lc: byte)
    requires tab.Valid()
    ensures |tab.lengthCode| == 256 && |tab.baseLength| == 29 == |LENGTH_EXTRA| && tab.lengthCode[lc] < 29
    ensures var c := tab.lengthCode[lc];
            LENGTH_EXTRA[c] <= 5 &&
            (LENGTH_EXTRA[c] != 0 ==> tab.baseLength[c] <= lc && lc - tab.baseLength[c] < Pow2(LENGTH_EXTRA[c]))
  {
    hide Pow2;
    var c := tab.lengthCode[lc];
    assert CT.LengthOk(lc, c, tab.baseLength[c]);
    ExtraSmall(c);
  }

  lemma ExtraSmall(code: nat)
    requires code < 29
    ensures LENGTH_EXTRA[code] <= 5
  {
  }

  lemma DistExtraSmall(code: nat)
    requires code < 30
    ensures DIST_EXTRA[code] <= 13
  {
  }

  lemma NoBits(x: nat)
    ensures Lsb(x, 0) == []
  {
  }

  /** The distance code and its extra bits. */
  method SendDistance(sink: BitSink.Sink, tab: Tab, t: CodeTree, dist: nat, ghost lens: seq<nat>, ghost item: Item)
    requires sink.Valid() && tab.Valid() && Ready(t, lens) && |t.code| >= D_CODES
    requires ItemOk(item) && item.Match? && dist == item.dist - 1 && DSym(tab, item) < |lens| &&
      lens[DSym(tab, item)] > 0
    modifies sink, sink.outbuf
    ensures sink.Valid()
    ensures sink.Stream() == old(sink.Stream()) +
              (CodeBits(lens, DSym(tab, item)) + Lsb(DExtra(tab, item), DIST_EXTRA[DSym(tab, item)]))
  {
    hide CodeBits, Lsb, Pow2, Ready;
    ghost var st := sink.Stream();
    var code := tab.DCode(dist);
    assert CT.DistOk(dist, code, tab.baseDist[code]);
    SendCode(sink, t, code, lens);
    var extra := DIST_EXTRA[code];
    ghost var x := DExtra(tab, item);
    if extra != 0 {
      DistExtraSmall(code);
      sink.SendBits(dist - tab.baseDist[code], extra);
    } else {
      NoBits(x);
    }
    assert (st + CodeBits(lens, code)) + Lsb(x, extra) == st + (CodeBits(lens, code) + Lsb(x, extra));
  }

  /** A match: length, then distance. */
  method SendMatch(sink: BitSink.Sink, tab: Tab, lt: CodeTree, dt: CodeTree,
                   lc: byte, dist: nat, ghost ll: seq<nat>, ghost dl: seq<nat>, ghost item: Item)
    requires sink.Valid() && tab.Valid()
    requires TreesReady(lt, dt, ll, dl)
    requires Codable(tab, ll, dl, item) && item == Match(lc + MIN_MATCH, dist + 1)
    modifies sink, sink.outbuf
    ensures sink.Valid() && sink.Stream() == old(sink.Stream()) + ItemBits(tab, ll, dl, item)
  {
    hide CodeBits, Lsb, Pow2, Ready;
    ghost var st := sink.Stream();
    SendLength(sink, tab, lt, lc, ll, item);
    SendDistance(sink, tab, dt, dist, dl, item);
    ghost var a, b, c, d := CodeBits(ll, LSym(tab, item)),
      Lsb(LExtra(tab, item), LENGTH_EXTRA[tab.lengthCode[item.len - 3]]),
      CodeBits(dl, DSym(tab, item)), Lsb(DExtra(tab, item), DIST_EXTRA[DSym(tab, item)]);
    Regroup(st, a, b, c, d);
  }

  lemma Regroup(st: seq<bool>, a: seq<bool>, b: seq<bool>, c: seq<bool>, d: seq<bool>)
    ensures st + (a + b) + (c + d) == st + (a + (b + (c + d)))
  {
  }

  /** Where the loop stands before item lx: flag holds the flags of items lx .. 8 * fx. */
  ghost predicate Reading(items: seq<Item>, lx: nat, dx: nat, fx: nat, flag: nat)
  {
    lx <= |items| && dx == Matches(items, lx) && fx == (lx + 7) / 8 &&
    var end := if 8 * fx <= |items| then 8 * fx else |items|;
    lx <= end && flag == FlagByte(items, lx, end - lx)
  }

  /** All flags are in flagBuf, the incomplete last byte included (first statement of flush_block). */
  ghost predicate FlagsSaved(items: seq<Item>, flagBuf: seq<byte>)
  {
    |flagBuf| == LIT_BUFSIZE / 8 && |items| < LIT_BUFSIZE &&
    flagBuf[|items| / 8] == FlagByte(items, 8 * (|items| / 8), |items| % 8)
  }

  /** Loading the next flag byte where one is due. */
  ghost function Loaded(items: seq<Item>, flagBuf: seq<byte>, lx: nat, fx: nat, flag: nat): (r: (nat, nat))
    requires |flagBuf| == LIT_BUFSIZE / 8 && (lx % 8 == 0 ==> fx < |flagBuf|)
  {
    if lx % 8 == 0 then (fx + 1, flagBuf[fx]) else (fx, flag)
  }

  lemma ReadingStep(items: seq<Item>, lBuf: seq<byte>, dBuf: seq<ush>, flagBuf: seq<byte>, lx: nat, dx: nat, fx: nat,
                    flag: nat)
    requires Represents(items, lBuf, dBuf, flagBuf) && FlagsSaved(items, flagBuf)
    requires Reading(items, lx, dx, fx, flag) && lx < |items|
    ensures (lx % 8 == 0 ==> fx < |flagBuf|) && dx <= lx &&
            var (fx', flag') := Loaded(items, flagBuf, lx, fx, flag);
            (flag' % 2 == 1 <==> items[lx].Match?) && lBuf[lx] == LitLen(items[lx]) && ItemOk(items[lx]) &&
            (items[lx].Match? ==> dBuf[dx] == items[lx].dist - 1) &&
            Reading(items, lx + 1, dx + (if items[lx].Match? then 1 else 0), fx', flag' / 2)
  {
    hide Represents, FlagsSaved, FlagByte, Matches;
    LoadedFlags(items, lBuf, dBuf, flagBuf, lx, dx, fx, flag);
    EntryAt(items, lBuf, dBuf, flagBuf, lx);
    var (fx', flag') := Loaded(items, flagBuf, lx, fx, flag);
    var end := if 8 * fx' <= |items| then 8 * fx' else |items|;
    FlagFirst(items, lx, end - lx);
    assert (lx + 1 + 7) / 8 == fx';
  }

  /** The flags at hand after a flag byte has been loaded where one is due. */
  lemma LoadedFlags(items: seq<Item>, lBuf: seq<byte>, dBuf: seq<ush>, flagBuf: seq<byte>, lx: nat, dx: nat, fx: nat,
                    flag: nat)
    requires Represents(items, lBuf, dBuf, flagBuf) && FlagsSaved(items, flagBuf)
    requires Reading(items, lx, dx, fx, flag) && lx < |items|
    ensures (lx % 8 == 0 ==> fx < |flagBuf|) &&
            var (fx', flag') := Loaded(items, flagBuf, lx, fx, flag);
            fx' == lx / 8 + 1 &&
            var end := if 8 * fx' <= |items| then 8 * fx' else |items|;
            lx < end && flag' == FlagByte(items, lx, end - lx)
  {
    hide FlagByte, Matches;
    if lx % 8 == 0 {
      assert fx == lx / 8 && 8 * fx == lx;
    }
  }

  lemma FlagFirst(items: seq<Item>, start: nat, n: nat)
    requires start + n <= |items| && n > 0
    ensures var f := FlagByte(items, start, n);
            (f % 2 == 1 <==> items[start].Match?) && f / 2 == FlagByte(items, start + 1, n - 1)
  {
  }

  lemma EntryAt(items: seq<Item>, lBuf: seq<byte>, dBuf: seq<ush>, flagBuf: seq<byte>, lx: nat)
    requires Represents(items, lBuf, dBuf, flagBuf) && lx < |items|
    ensures |lBuf| == |dBuf| == LIT_BUFSIZE && |flagBuf| == LIT_BUFSIZE / 8 && |items| < LIT_BUFSIZE
    ensures lBuf[lx] == LitLen(items[lx]) && ItemOk(items[lx]) && Matches(items, lx) <= lx
    ensures items[lx].Match? ==> dBuf[Matches(items, lx)] == items[lx].dist - 1
    ensures Matches(items, lx + 1) == Matches(items, lx) + if items[lx].Match? then 1 else 0
  {
    hide FlagByte;
  }

  lemma Started(items: seq<Item>)
    ensures Reading(items, 0, 0, 0, 0)
  {
  }

  method Send(sink: BitSink.Sink, buf: Buffer, tab: Tab, lt: CodeTree, dt: CodeTree,
              ghost ll: seq<nat>, ghost dl: seq<nat>)
    requires sink.Valid() && tab.Valid()
    requires buf.Valid() && FlagsSaved(buf.items, buf.flagBuf[..]) && sink.outbuf != buf.lBuf &&
      sink.outbuf != buf.flagBuf
    requires TreesReady(lt, dt, ll, dl) && AllCodable(tab, ll, dl, buf.items)
    modifies sink, sink.outbuf
    ensures sink.Valid()
    ensures sink.Stream() == old(sink.Stream()) + (DataBits(tab, ll, dl, buf.items) + CodeBits(ll, END_OF_BLOCK))
  {
    hide CodeBits, Tab.Valid, Ready, Represents, Reading, FlagsSaved, ItemBits, Codable, DataBits, BitSink.Sink.Stream,
      Pow2;
    ghost var st, items := sink.Stream(), buf.items;
    ghost var l, d, f := buf.lBuf[..], buf.dBuf[..], buf.flagBuf[..];
    Shape(items, l, d, f);
    Started(items);
    NoData(tab, ll, dl);
    assert st == st + DataBits(tab, ll, dl, []);
    var lx, dx, fx, flag := 0, 0, 0, 0;
    assert items[..0] == [];
    while lx < buf.lastLit
      invariant 0 <= lx <= |items| && sink.Valid()
      invariant buf.lBuf[..] == l && buf.dBuf[..] == d && buf.flagBuf[..] == f
      invariant Reading(items, lx, dx, fx, flag) && AllCodable(tab, ll, dl, items[..lx])
      invariant sink.Stream() == st + DataBits(tab, ll, dl, items[..lx])
    {
      ghost var item := items[lx];
      ReadingStep(items, l, d, f, lx, dx, fx, flag);
      if lx % 8 == 0 {
        flag := buf.flagBuf[fx];
        fx := fx + 1;
      }
      var lc := buf.lBuf[lx];
      assert Codable(tab, ll, dl, item);
      DataBitsPush(tab, ll, dl, items[..lx], item);
      assert items[..lx + 1] == items[..lx] + [item];
      lx := lx + 1;
      if flag % 2 == 0 {
        LiteralBits(tab, ll, dl, item);
        SendCode(sink, lt, lc, ll);
      } else {
        var dist := buf.dBuf[dx];
        dx := dx + 1;
        SendMatch(sink, tab, lt, dt, lc, dist, ll, dl, item);
      }
      flag := flag / 2;
      SeqSum(st, DataBits(tab, ll, dl, items[..lx - 1]), ItemBits(tab, ll, dl, item));
    }
    assert items[..lx] == items;
    SendCode(sink, lt, END_OF_BLOCK, ll);
    SeqSum(st, DataBits(tab, ll, dl, items), CodeBits(ll, END_OF_BLOCK));
  }

  lemma NoData(tab: Tab, ll: seq<nat>, dl: seq<nat>)
    requires tab.Valid()
    ensures AllCodable(tab, ll, dl, []) && DataBits(tab, ll, dl, []) == []
  {
  }

  lemma LiteralBits(tab: Tab, ll: seq<nat>, dl: seq<nat>, item: Item)
    requires tab.Valid() && Codable(tab, ll, dl, item) && item.Literal?
    ensures item.b < |ll| && ll[item.b] > 0 && ItemBits(tab, ll, dl, item) == CodeBits(ll, item.b)
  {
  }
}
