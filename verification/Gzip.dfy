/** zip of gzip.c: a gzip member around the compressed data (RFC 1952). */
module Gzip {
  import opened Bits
  import opened Limits
  import opened Inflate
  import opened BitSink
  import W = Window
  import C = Coder
  import D = Deflate
  import LM = LongestMatch
  import FlushBlock
  import T = Tokens
  import BuildTree
  import Crc

  const MAGIC: nat := 0x00088b1f     // 1f 8b, method 8, no optional fields
  const HEADER_BITS: nat := 80

  /** A specification decoder for a member without optional fields (sections 2.2 and 2.3 of RFC 1952). */
  function Gunzip(bytes: seq<byte>): (r: Option<seq<byte>>)
  {
    var bits := ByteBits(bytes);
    var magic :- Number(bits, 0, 32);
    if magic != MAGIC then None else
    var (out, p) :- Stream(bits, HEADER_BITS, []);
    var crc :- Number(bits, ByteAlign(p), 32);
    var size :- Number(bits, ByteAlign(p) + 32, 32);
    if crc == 0xffff_ffff - Crc.Feed(0xffff_ffff, out) && size == |out| % 0x1_0000_0000 && |bits| == ByteAlign(p) + 64
    then Some(out) else None
  }

  /** put_32bit. */
  method Put32(sink: Sink, n: nat)
    requires sink.Valid() && sink.biValid == 0 && n < 0x1_0000_0000
    modifies sink, sink.outbuf
    ensures sink.Valid() && sink.biValid == 0 && sink.Stream() == old(sink.Stream()) + Lsb(n, 32)
  {
    hide Lsb, ByteBits, Shr, Low, WordBytes, Pow2;
    ghost var c := sink.Contents();
    Crc.Pow32();
    Pow2Values();
    ShrSmall(n, 16, 16);
    sink.Put16(Low(n, 16));
    sink.Put16(Shr(n, 16));
    Halves(c, n);
    NoBitsLeft(sink);
  }

  lemma NoBitsLeft(sink: Sink)
    requires sink.Valid() && sink.biValid == 0
    ensures sink.Stream() == ByteBits(sink.Contents())
  {
  }

  lemma Halves(c: seq<byte>, n: nat)
    requires n < 0x1_0000_0000
    ensures Low(n, 16) < 0x10000 && Shr(n, 16) < 0x10000
    ensures ByteBits(c + WordBytes(Low(n, 16)) + WordBytes(Shr(n, 16))) == ByteBits(c) + Lsb(n, 32)
  {
    hide Lsb, ByteBits, Shr, Low, WordBytes, Pow2;
    Crc.Pow32();
    Pow2Values();
    ShrSmall(n, 16, 16);
    WordBits(c, Low(n, 16));
    WordBits(c + WordBytes(Low(n, 16)), Shr(n, 16));
    LsbSplit(n, 16, 16);
    LsbLow(n, 16);
    assert (ByteBits(c) + Lsb(n, 16)) + Lsb(Shr(n, 16), 16) == ByteBits(c) + (Lsb(n, 16) + Lsb(Shr(n, 16), 16));
  }

  /** put_8bit on a byte boundary. */
  method PutByte(sink: Sink, b: byte)
    requires sink.Valid() && sink.biValid == 0
    modifies sink, sink.outbuf
    ensures sink.Valid() && sink.biValid == 0 && sink.Stream() == old(sink.Stream()) + Lsb(b, 8)
  {
    hide Lsb, ByteBits, Pow2;
    NoBitsLeft(sink);
    ByteBitsPush(sink.Contents(), b);
    sink.Put8(b);
    NoBitsLeft(sink);
  }

  /** Header, compressed data, checksum and size: the member decodes to what the compressed data decode to. */
  lemma MemberDecodes(bytes: seq<byte>, rest: seq<bool>, s1: seq<bool>, out: seq<byte>, crc: nat, size: nat)
    requires |rest| == 48 && Lsb(MAGIC, 32) + rest <= s1 && D.Finished(s1, HEADER_BITS, out)
    requires crc == 0xffff_ffff - Crc.Feed(0xffff_ffff, out) && size == |out| % 0x1_0000_0000
    requires ByteBits(bytes) == Padded(s1) + Lsb(crc, 32) + Lsb(size, 32)
    ensures Gunzip(bytes) == Some(out)
  {
    hide Lsb, ByteBits, Pow2, Padded, Number, Stream, Crc.Feed, ByteAlign, At, D.Finished;
    var bits, p := ByteBits(bytes), Padded(s1);
    PaddedAt(s1);
    Crc.Pow32();
    Trailer(bits, p, Lsb(crc, 32), Lsb(size, 32));
    Header(bits, p, s1, Lsb(MAGIC, 32), rest);
    FinishedOn(s1, HEADER_BITS, out, bits);
    NumberReads(bits, |p|, crc, 32);
    NumberReads(bits, |p| + 32, size, 32);
    NumberReads(bits, 0, MAGIC, 32);
  }

  lemma FinishedOn(s: seq<bool>, start: nat, out: seq<byte>, bits: seq<bool>)
    requires D.Finished(s, start, out) && s <= bits
    ensures Stream(bits, start, []) == Some((out, |s|))
  {
  }

  lemma PaddedAt(s: seq<bool>)
    ensures |Padded(s)| == ByteAlign(|s|) && s <= Padded(s)
  {
  }

  lemma Trailer(bits: seq<bool>, p: seq<bool>, a: seq<bool>, b: seq<bool>)
    requires bits == p + a + b
    ensures At(bits, |p|, a) && At(bits, |p| + |a|, b) && p <= bits
  {
    assert bits[|p|..|p| + |a|] == a && bits[|p| + |a|..|p| + |a| + |b|] == b;
  }

  lemma Header(bits: seq<bool>, p: seq<bool>, s1: seq<bool>, m: seq<bool>, rest: seq<bool>)
    requires p <= bits && s1 <= p && m + rest <= s1
    ensures At(bits, 0, m) && s1 <= bits
  {
    assert bits[0..|m|] == (m + rest)[..|m|];
  }

  /** Time stamp, extra flags (the slowest level) and system (Unix) of a header. */
  ghost function AfterMagic(timeStamp: nat): (r: seq<bool>)
    ensures |r| == 48
  {
    Lsb(timeStamp, 32) + Lsb(2, 8) + Lsb(3, 8)
  }

  method PutHeader(sink: Sink, timeStamp: nat)
    requires sink.Valid() && sink.biValid == 0 && sink.Stream() == [] && timeStamp < 0x1_0000_0000
    modifies sink, sink.outbuf
    ensures sink.Valid() && sink.biValid == 0 && sink.Stream() == Lsb(MAGIC, 32) + AfterMagic(timeStamp)
  {
    hide Lsb, ByteBits;
    Put32(sink, MAGIC);
    assert sink.Stream() == Lsb(MAGIC, 32);
    Put32(sink, timeStamp);
    PutByte(sink, 2);
    PutByte(sink, 3);
    assert Lsb(MAGIC, 32) + Lsb(timeStamp, 32) + Lsb(2, 8) + Lsb(3, 8) == Lsb(MAGIC, 32) + AfterMagic(timeStamp);
  }

  /** Compress a file; window and prev may hold anything from an earlier file. What is written decodes to what was
      read. */
  method Zip(file: W.Input, window: array<byte>, prev: array<ush>, timeStamp: nat) returns (sink: Sink)
    requires file.Valid() && file.pos == 0 && timeStamp < 0x1_0000_0000
    requires window.Length == LM.WINDOW_MEM && prev.Length == 2 * WSIZE
    modifies file`pos, file`failed, file`crc, file`isize, window, prev
    ensures file.pos <= |file.data| && Gunzip(sink.written) == Some(file.data[..file.pos])
    ensures file.pos == |file.data| || file.failed
    ensures Lsb(MAGIC, 32) + AfterMagic(timeStamp) <= ByteBits(sink.written)
  {
    hide Gunzip, D.Finished, Padded, Crc.Feed, Crc.BitSteps, Lsb, ByteBits, W.Input.Valid, AfterMagic;
    sink := new Sink();
    PutHeader(sink, timeStamp);
    var s1 := Compress(sink, file, window, prev);
    PutTrailer(sink, file, AfterMagic(timeStamp), s1);
  }

  /** Initialize and deflate, as zip does after the header. */
  method Compress(sink: Sink, file: W.Input, window: array<byte>, prev: array<ush>) returns (ghost s1: seq<bool>)
    requires sink.Valid() && |sink.Stream()| % 8 == 0 && file.Valid() && file.pos == 0 && sink.outbuf != window
    requires window.Length == LM.WINDOW_MEM && prev.Length == 2 * WSIZE
    modifies file`pos, file`failed, file`crc, file`isize, window, prev, sink, sink.outbuf
    ensures sink.Valid() && sink.biValid == 0 && old(sink.Stream()) <= s1 && sink.Stream() == Padded(s1)
    ensures file.Valid() && file.pos <= |file.data| && (file.pos == |file.data| || file.failed)
    ensures D.Finished(s1, old(|sink.Stream()|), file.data[..file.pos])
  {
    hide D.Finished, Padded, Crc.Feed, Crc.BitSteps, Sink.Stream, C.Coder.Valid, W.Window.Valid, D.Deflater.Separate;
    ghost var head := sink.Stream();
    var coder := new C.Coder();
    var win := new W.Window(window, prev, file);
    win.LmInit();
    assert sink.Stream() == head;
    var d := new D.Deflater(win, coder, sink, head);
    Fresh(d);
    var total;
    total, s1 := d.Deflate();
  }

  /** Checksum and size, and the last write. */
  method PutTrailer(sink: Sink, file: W.Input, ghost rest: seq<bool>, ghost s1: seq<bool>)
    requires file.Valid() && sink.Valid() && sink.biValid == 0 && sink.Stream() == Padded(s1)
    requires |rest| == 48 && Lsb(MAGIC, 32) + rest <= s1 && D.Finished(s1, HEADER_BITS, file.data[..file.pos])
    modifies sink, sink.outbuf
    ensures Gunzip(sink.written) == Some(file.data[..file.pos]) && Lsb(MAGIC, 32) + rest <= ByteBits(sink.written)
  {
    hide Gunzip, D.Finished, Padded, Crc.Feed, Crc.BitSteps, Lsb, ByteBits;
    PaddedAt(s1);
    var crc, size := 0xffff_ffff - file.crc, file.isize;
    Put32(sink, crc);
    Put32(sink, size);
    NoBitsLeft(sink);
    ghost var all := sink.Contents();
    sink.FlushOutbuf();
    assert sink.written == all;
    MemberDecodes(sink.written, rest, s1, file.data[..file.pos], crc, size);
  }

  /** The sizes of the coder's arrays tell them apart from the others. */
  ghost predicate Sizes(d: D.Deflater)
  {
    d.coder.work.heap.Length == d.coder.work.depth.Length == 573 && d.coder.work.blCount.Length == 16 &&
    d.coder.lDesc.fc.Length == d.coder.lDesc.dl.Length == 573 &&
      d.coder.dDesc.fc.Length == d.coder.dDesc.dl.Length == 61 &&
    d.coder.blDesc.fc.Length == d.coder.blDesc.dl.Length == 39 &&
    d.coder.buf.flagBuf.Length == 1024 && d.coder.buf.lBuf.Length == d.coder.buf.dBuf.Length == 8192
  }

  lemma CoderSizes(d: D.Deflater)
    requires d.coder.Valid()
    ensures Sizes(d)
  {
    hide C.StaticOk, BuildTree.Apart, T.Tab.Valid, T.LExtras;
    FlushBlock.BufApart(d.coder);
    FlushBlock.CoderApart(d.coder);
  }

  lemma ByteArrayApart(d: D.Deflater, a: array<byte>)
    requires Sizes(d) && (a.Length == 8192 || a.Length == LM.WINDOW_MEM) && a != d.coder.buf.lBuf
    ensures a !in d.CoderFrame()
  {
  }

  lemma LinksApart(d: D.Deflater, a: array<ush>)
    requires Sizes(d) && a.Length == 2 * WSIZE
    ensures a !in d.CoderFrame()
  {
  }

  lemma TableApart(d: D.Deflater, a: array<Crc.Word>)
    requires Sizes(d) && a.Length == 256
    ensures a !in d.CoderFrame()
  {
  }

  lemma Fresh(d: D.Deflater)
    requires d.coder.Valid() && d.sink.Valid() && d.win.Valid() && d.sink.outbuf != d.coder.buf.lBuf
    ensures d.Separate()
  {
    hide C.Coder.Valid, Sizes, D.Deflater.CoderFrame, LM.Linked, Crc.Feed, Crc.BitSteps;
    CoderSizes(d);
    BufferSize(d);
    ByteArrayApart(d, d.sink.outbuf);
    ByteArrayApart(d, d.win.window);
    LinksApart(d, d.win.prev);
    TableApart(d, d.win.file.table);
    Others(d);
  }

  lemma BufferSize(d: D.Deflater)
    requires Sizes(d)
    ensures d.coder.buf.lBuf.Length == 8192
  {
  }

  lemma Others(d: D.Deflater)
    ensures d.win !in d.CoderFrame() && d.win.file !in d.CoderFrame() && d.sink !in d.CoderFrame()
  {
  }
}
