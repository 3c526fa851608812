/** Stored, static and dynamic blocks as the specification decoder reads them back. */
module BlockReads {
  import opened Bits
  import opened Canonical
  import opened Inflate
  import opened Tokens
  import opened RunLength
  import opened DynHeader
  import opened Limits
  import BitSink
  import StaticTrees

  function Flag(eof: bool): (b: nat) { if eof then 1 else 0 }

  /** Whatever follows s1, the block at pos has the given final flag and turns out into out'; it ends where s1 ends. */
  ghost predicate BlockIs(bits: seq<bool>, pos: nat, end: nat, eof: bool, out: seq<byte>, out': seq<byte>)
  {
    Number(bits, pos, 1) == Some(Flag(eof)) && Block(bits, pos + 1, out) == Some((out', end))
  }

  ghost predicate ReadsBlock(s1: seq<bool>, pos: nat, eof: bool, out: seq<byte>, out': seq<byte>)
  {
    forall bits :: s1 <= bits ==> BlockIs(bits, pos, |s1|, eof, out, out')
  }

  lemma HeaderBits(kind: nat, eof: bool)
    requires kind < 4
    ensures Lsb(2 * kind + Flag(eof), 3) == Lsb(Flag(eof), 1) + Lsb(kind, 2)
  {
    LsbConcat(Flag(eof), kind, 1, 2);
  }

  lemma AtPrefix(bits: seq<bool>, st: seq<bool>, x: seq<bool>)
    requires st + x <= bits
    ensures At(bits, |st|, x)
  {
    assert bits[|st|..|st| + |x|] == (st + x)[|st|..];
  }

  /** The three header bits of a block. */
  lemma HeaderReads(bits: seq<bool>, st: seq<bool>, kind: nat, eof: bool, x: seq<bool>)
    requires kind < 4 && st + (Lsb(2 * kind + Flag(eof), 3) + x) <= bits
    ensures Number(bits, |st|, 1) == Some(Flag(eof)) && Number(bits, |st| + 1, 2) == Some(kind)
    ensures At(bits, |st| + 3, x)
  {
    hide Lsb, At, Number;
    HeaderBits(kind, eof);
    var h, k := Lsb(Flag(eof), 1), Lsb(kind, 2);
    AtPrefix(bits, st, Lsb(2 * kind + Flag(eof), 3) + x);
    assert (h + k) + x == h + (k + x);
    AtSplit(bits, |st|, h, k + x);
    AtSplit(bits, |st| + 1, k, x);
    assert Pow2(1) == 2 && Pow2(2) == 4;
    NumberReads(bits, |st|, Flag(eof), 1);
    NumberReads(bits, |st| + 1, kind, 2);
  }

  // ---- stored ----

  lemma {:induction false} BytesRead(bs: seq<byte>, bits: seq<bool>, pos: nat)
    requires At(bits, pos, ByteBits(bs))
    ensures pos + 8 * |bs| <= |bits| && Bytes(bits, pos, |bs|) == bs
    decreases |bs|
  {
    hide Lsb, LsbValue, At;
    AtFacts(bits, pos, ByteBits(bs));
    if bs != [] {
      var bs', c := bs[..|bs| - 1], bs[|bs| - 1];
      AtSplit(bits, pos, ByteBits(bs'), Lsb(c, 8));
      BytesRead(bs', bits, pos);
      Pow2Values();
      NumberReads(bits, pos + 8 * |bs'|, c, 8);
      assert bs == bs' + [c];
    }
  }

  lemma PadLength(st: seq<bool>, h: seq<bool>)
    requires |h| == 3
    ensures |BitSink.Padded(st + h)| == ByteAlign(|st| + 3)
  {
  }

  /** What copy_block sends after the header bits of a stored block. */
  ghost function StoredStream(st: seq<bool>, eof: bool, data: seq<byte>): (s1: seq<bool>)
    requires |data| < 0x10000
  {
    BitSink.Padded(st + Lsb(Flag(eof), 3)) + Lsb(|data|, 16) + Lsb(0xffff - |data|, 16) + ByteBits(data)
  }

  lemma StoredReads(st: seq<bool>, eof: bool, data: seq<byte>, out: seq<byte>, bits: seq<bool>)
    requires |data| < 0x10000 && StoredStream(st, eof, data) <= bits
    ensures BlockIs(bits, |st|, |StoredStream(st, eof, data)|, eof, out, out + data)
  {
    hide Lsb, ByteBits, At, Number, Bytes, Pow2, BitSink.Padded, ByteAlign;
    var h := Lsb(Flag(eof), 3);
    var p := BitSink.Padded(st + h);
    PadLength(st, h);
    Pow2Values();
    var n, m := Lsb(|data|, 16), Lsb(0xffff - |data|, 16);
    assert p + n + m + ByteBits(data) == p + (n + (m + ByteBits(data)));
    AtPrefix(bits, p, n + (m + ByteBits(data)));
    AtSplit(bits, |p|, n, m + ByteBits(data));
    AtSplit(bits, |p| + 16, m, ByteBits(data));
    NumberReads(bits, |p|, |data|, 16);
    NumberReads(bits, |p| + 16, 0xffff - |data|, 16);
    BytesRead(data, bits, |p| + 32);
    PaddedPrefix(st, h, bits, p);
    assert (st + h) == st + (Lsb(2 * 0 + Flag(eof), 3) + []);
    HeaderReads(bits, st, 0, eof, []);
  }

  lemma PaddedPrefix(st: seq<bool>, h: seq<bool>, bits: seq<bool>, p: seq<bool>)
    requires p == BitSink.Padded(st + h) && p <= bits
    ensures st + h <= bits
  {
    assert p[..|st + h|] == st + h;
  }

  // ---- static ----

  lemma StaticReads(st: seq<bool>, eof: bool, tab: Tab, items: seq<Item>, out: seq<byte>, bits: seq<bool>)
    requires tab.Valid() && AllCodable(tab, FixedLengths(), FixedDistances(), items) && Fits(items, out)
    requires st + (Lsb(2 + Flag(eof), 3) +
      (DataBits(tab, FixedLengths(), FixedDistances(), items) + CodeBits(FixedLengths(), END_OF_BLOCK))) <= bits
    ensures BlockIs(bits, |st|, |st| + 3 + |DataBits(tab, FixedLengths(), FixedDistances(), items)| + 7, eof, out,
      ExpandItems(items, out))
  {
    hide Lsb, At, Number, DataBits, CodeBits, FixedLengths, FixedDistances, Tab.Valid, AllCodable, Fits, ExpandItems,
      Data, Decodable;
    var x := DataBits(tab, FixedLengths(), FixedDistances(), items) + CodeBits(FixedLengths(), END_OF_BLOCK);
    StaticTrees.FixedDecodable();
    StaticTrees.FixedDistDecodable();
    FixedEnd();
    HeaderReads(bits, st, 1, eof, x);
    DataReads(tab, FixedLengths(), FixedDistances(), items, bits, |st| + 3, out);
  }

  lemma FixedEnd()
    ensures FixedLengths()[END_OF_BLOCK] == 7
  {
  }

  // ---- dynamic ----

  lemma DynReads(st: seq<bool>, eof: bool, tab: Tab, ll: seq<nat>, dl: seq<nat>, cl: seq<nat>, k: nat, items: seq<Item>,
                 out: seq<byte>, bits: seq<bool>)
    requires tab.Valid() && 257 <= |ll| <= 286 && 1 <= |dl| <= 30 && 4 <= k && EndsAt(cl, k) && Small(ll) && Small(dl)
    requires Decodable(cl, 7) && Decodable(ll, 15) && Decodable(dl, 15) && ll[END_OF_BLOCK] > 0
    requires Within(cl, RunLengths(ll)) && Within(cl, RunLengths(dl))
    requires AllCodable(tab, ll, dl, items) && Fits(items, out)
    requires st + (Lsb(4 + Flag(eof), 3) +
      (TablesBits(ll, dl, cl, k) + (DataBits(tab, ll, dl, items) + CodeBits(ll, END_OF_BLOCK)))) <= bits
    ensures BlockIs(bits, |st|,
      |st| + 3 + |TablesBits(ll, dl, cl, k)| + |DataBits(tab, ll, dl, items)| + ll[END_OF_BLOCK],
                    eof, out, ExpandItems(items, out))
  {
    hide Lsb, At, Number, DataBits, CodeBits, TablesBits, Tables, Tab.Valid, AllCodable, Fits, ExpandItems, Data,
      Decodable;
    hide RunLengths, Within, EndsAt;
    BlShape(cl, k);
    var x := DataBits(tab, ll, dl, items) + CodeBits(ll, END_OF_BLOCK);
    HeaderReads(bits, st, 2, eof, TablesBits(ll, dl, cl, k) + x);
    AtSplit(bits, |st| + 3, TablesBits(ll, dl, cl, k), x);
    TablesRead(ll, dl, cl, k, bits, |st| + 3);
    DataReads(tab, ll, dl, items, bits, |st| + 3 + |TablesBits(ll, dl, cl, k)|, out);
  }

  lemma BlShape(cl: seq<nat>, k: nat)
    requires EndsAt(cl, k)
    ensures |cl| == BL_CODES && k <= BL_CODES
  {
  }
}
