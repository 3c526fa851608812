/** The bit packer of gzip.c: a 16-bit accumulator feeding a byte buffer that is
    written to the output file whenever it fills. */
module BitSink {
  import opened Bits
  import opened Limits

  const BUF_SIZE: nat := 16

  /** The result spells the code backwards: its bits in transmission order are those of the code from the top. */
  method BiReverse(code: nat, len: nat) returns (res: nat)
    requires 1 <= len <= 15 && code < Pow2(len)
    ensures res < Pow2(len)
    ensures Lsb(res, len) == Msb(code, len)
  {
    var n, c := len, code;
    res := 0;
    while true
      invariant 1 <= n <= len
      invariant c == Shr(code, len - n)
      invariant res == Reversed(code, len - n) * 2
      decreases n
    {
      res := BitOr(res, c % 2);
      OrLowBit(Reversed(code, len - n), c % 2);
      ShrDigit(code, len - n);
      n := n - 1;
      if n <= 0 { ReversedSpells(code, len); return; }
      c := c / 2;
      ShrStep(code, len - n - 1);
      res := res * 2;
    }
  }

  /** The k low-order bits of v in reverse order, as a number. */
  ghost function Reversed(v: nat, k: nat): (r: nat)
  {
    if k == 0 then 0 else 2 * Reversed(v, k - 1) + Shr(v, k - 1) % 2
  }

  lemma OrLowBit(a: nat, b: nat)
    requires b < 2
    ensures BitOr(2 * a, b) == 2 * a + b
  {
    assert BitOr(a, 0) == a;
    if a > 0 && b == 1 { assert BitOr(2 * a, 1) == 1 + 2 * BitOr(a, 0); }
  }

  lemma {:induction false} ShrStep(v: nat, k: nat)
    ensures Shr(v, k) / 2 == Shr(v, k + 1)
  {
    if k > 0 { ShrStep(v / 2, k - 1); }
  }

  lemma ShrDigit(v: nat, k: nat)
    ensures Reversed(v, k + 1) == 2 * Reversed(v, k) + Shr(v, k) % 2
  {
  }

  lemma {:induction false} ReversedSpells(v: nat, k: nat)
    ensures Reversed(v, k) < Pow2(k)
    ensures Lsb(Reversed(v, k), k) == Msb(v, k)
    decreases k
  {
    if k > 0 {
      ReversedSpells(v, k - 1);
      var r := Reversed(v, k);
      assert r / 2 == Reversed(v, k - 1) && r % 2 == Shr(v, k - 1) % 2;
      MsbFront(v, k);
    }
  }

  lemma {:induction false} MsbFront(v: nat, k: nat)
    requires k > 0
    ensures Msb(v, k) == [Shr(v, k - 1) % 2 == 1] + Msb(v, k - 1)
    decreases k
  {
    if k > 1 {
      MsbFront(v / 2, k - 1);
      var h, m, t := [Shr(v, k - 1) % 2 == 1], Msb(v / 2, k - 2), [v % 2 == 1];
      assert (h + m) + t == h + (m + t);
    }
  }

  /** The two bytes of a 16-bit value, low byte first. */
  function WordBytes(w: ush): (r: seq<byte>)
    ensures |r| == 2
  {
    Pow2Values();
    ShrSmall(w, 8, 8);
    [Low(w, 8), Shr(w, 8)]
  }

  class Sink {
    var written: seq<byte>        // bytes handed to xwrite
    const outbuf: array<byte>
    var outcnt: nat               // bytes in outbuf
    var biBuf: nat                // unwritten bits, least significant first
    var biValid: nat              // number of unwritten bits

    ghost predicate Valid()
      reads this
    {
      HasRoom() && biValid <= BUF_SIZE && biBuf < Pow2(biValid)
    }

    ghost predicate HasRoom()
      reads this`outcnt
    {
      outbuf.Length == OUTBUFSIZ && outcnt < OUTBUFSIZ
    }

    /** All bytes produced so far. */
    ghost function Contents(): (s: seq<byte>)
      reads this`written, this`outcnt, outbuf
      requires HasRoom()
    {
      written + outbuf[..outcnt]
    }

    /** The bit stream produced so far. */
    ghost function Stream(): (s: seq<bool>)
      reads this, outbuf
      requires Valid()
    {
      ByteBits(Contents()) + Lsb(biBuf, biValid)
    }

    constructor ()
      ensures Valid() && fresh(outbuf)
      ensures Stream() == []
    {
      written := [];
      outbuf := new byte[OUTBUFSIZ](_ => 0);
      outcnt := 0;
      biBuf, biValid := 0, 0;
    }

    /** Write the output buffer out. */
    method FlushOutbuf()
      requires outbuf.Length == OUTBUFSIZ && outcnt <= OUTBUFSIZ
      modifies this`written, this`outcnt
      ensures HasRoom() && outcnt == 0
      ensures Contents() == old(written + outbuf[..outcnt])
    {
      if outcnt == 0 { return; }
      written := written + outbuf[..outcnt];
      outcnt := 0;
    }

    method Put8(c: byte)
      requires HasRoom()
      modifies this`written, this`outcnt, outbuf
      ensures HasRoom()
      ensures Contents() == old(Contents()) + [c]
    {
      outbuf[outcnt] := c;
      outcnt := outcnt + 1;
      assert outbuf[..outcnt] == old(outbuf[..outcnt]) + [c];
      if outcnt == OUTBUFSIZ { FlushOutbuf(); }
    }

    method Put16(w: ush)
      requires HasRoom()
      modifies this`written, this`outcnt, outbuf
      ensures HasRoom()
      ensures Contents() == old(Contents()) + WordBytes(w)
    {
      var bs := WordBytes(w);
      if outcnt < OUTBUFSIZ - 2 {
        outbuf[outcnt] := bs[0];
        outbuf[outcnt + 1] := bs[1];
        outcnt := outcnt + 2;
        assert outbuf[..outcnt] == old(outbuf[..outcnt]) + bs;
      } else {
        Put8(bs[0]);
        Put8(bs[1]);
      }
    }

    /** The stream grows by the low bits of value, however they fall across the 16-bit buffer. */
    method SendBits(value: nat, length: nat)
      requires Valid()
      requires length <= 16 && value < Pow2(length)
      modifies this, outbuf
      ensures Valid()
      ensures Stream() == old(Stream()) + Lsb(value, length)
    {
      hide Lsb, ByteBits, Pow2, Shl, Shr, Low, BitOr, WordBytes;
      ghost var c, b, v := Contents(), biBuf, biValid;
      BitOrShl(biBuf, value, biValid);
      if biValid > BUF_SIZE - length {
        biBuf := Low(BitOr(biBuf, Shl(value, biValid)), 16);
        Pow2Values();
        Put16(biBuf);
        biBuf := Shr(Low(value, 16), BUF_SIZE - biValid);
        biValid := biValid + length - BUF_SIZE;
        Spill(c, b, v, value, length);
      } else {
        biBuf := BitOr(biBuf, Shl(value, biValid));
        biValid := biValid + length;
        AddSmall(b, value, v, length);
        LsbConcat(b, value, v, length);
        assert ByteBits(c) + (Lsb(b, v) + Lsb(value, length)) == ByteBits(c) + Lsb(b, v) + Lsb(value, length);
      }
    }

    /** Write out the bits of an incomplete byte, padded with zeros. */
    method BiWindup()
      requires Valid()
      modifies this, outbuf
      ensures Valid() && biValid == 0
      ensures Stream() == Padded(old(Stream()))
    {
      ghost var c, b, v := Contents(), biBuf, biValid;
      Pow2Mono(biValid, 16);
      Pow2Values();
      if biValid > 8 {
        Put16(biBuf);
      } else if biValid > 0 {
        Pow2Mono(biValid, 8);
        Put8(biBuf);
      }
      biBuf := 0;
      biValid := 0;
      Windup(c, b, v);
      assert Contents() == WindupBytes(c, b, v);
      assert Stream() == ByteBits(Contents());
    }

    /** Copy a stored block: length, complemented length, bytes. */
    method CopyBlock(buf: seq<byte>)
      requires Valid() && |buf| < 0x10000
      modifies this, outbuf
      ensures Valid() && biValid == 0
      ensures Stream() == Padded(old(Stream())) + Lsb(|buf|, 16) + Lsb(0xffff - |buf|, 16) + ByteBits(buf)
    {
      hide Lsb, ByteBits, Pow2, WordBytes, Padded;
      BiWindup();
      ghost var s := Contents();
      Put16(|buf|);
      Put16(0xffff - |buf|);
      ghost var h := Contents();
      CopiedBits(s, buf);
      var i := 0;
      while i < |buf|
        invariant 0 <= i <= |buf|
        invariant Valid() && biValid == 0
        invariant Contents() == h + buf[..i]
      {
        Put8(buf[i]);
        assert buf[..i + 1] == buf[..i] + [buf[i]];
        i := i + 1;
      }
      assert buf[..i] == buf;
      assert Stream() == ByteBits(h + buf);
    }
  }

  /** A bit stream padded with zero bits to a byte boundary. */
  ghost function Padded(s: seq<bool>): (r: seq<bool>)
    ensures |r| % 8 == 0 && |s| <= |r| < |s| + 8 && r[..|s|] == s
  {
    if |s| % 8 == 0 then s else s + Lsb(0, 8 - |s| % 8)
  }

  lemma WordBits(c: seq<byte>, w: ush)
    ensures ByteBits(c + WordBytes(w)) == ByteBits(c) + Lsb(w, 16)
  {
    var lo, hi := WordBytes(w)[0], WordBytes(w)[1];
    LsbSplit(w, 8, 8);
    LsbLow(w, 8);
    assert Lsb(lo, 8) + Lsb(hi, 8) == Lsb(w, 16);
    assert c + WordBytes(w) == (c + [lo]) + [hi];
    ByteBitsPush(c, lo);
    ByteBitsPush(c + [lo], hi);
    SeqAssoc(ByteBits(c), [], Lsb(lo, 8), Lsb(hi, 8));
  }

  lemma AddSmall(b: nat, value: nat, v: nat, length: nat)
    requires b < Pow2(v) && value < Pow2(length)
    ensures b + Shl(value, v) < Pow2(v + length)
    decreases v
  {
    if v > 0 { AddSmall(b / 2, value, v - 1, length); }
  }

  /** The accumulator overflows: 16 bits leave, the rest of value stays. */
  lemma Spill(c: seq<byte>, b: nat, v: nat, value: nat, length: nat)
    requires v <= 16 && length <= 16 && v + length > 16
    requires b < Pow2(v) && value < Pow2(length)
    ensures var w := Low(b + Shl(value, v), 16);
            w < 0x10000 &&
            var r := Shr(Low(value, 16), 16 - v);
            r < Pow2(v + length - 16) &&
            ByteBits(c + WordBytes(w)) + Lsb(r, v + length - 16)
            == ByteBits(c) + Lsb(b, v) + Lsb(value, length)
  {
    hide Lsb, ByteBits, Pow2, Shl, Shr, Low, WordBytes;
    var all, m := b + Shl(value, v), v + length - 16;
    var w := Low(all, 16);
    Pow2Values();
    Pow2Mono(length, 16);
    LowSmall(value, 16);
    var r := Shr(value, 16 - v);
    ShrSmall(value, 16 - v, m);
    LsbSplit(value, 16 - v, m);
    LsbConcat(b, value, v, 16 - v);
    LsbLow(all, 16);
    assert Lsb(w, 16) == Lsb(b, v) + Lsb(value, 16 - v);
    WordBits(c, w);
    SeqAssoc(ByteBits(c), Lsb(b, v), Lsb(value, 16 - v), Lsb(r, m));
  }

  lemma SeqAssoc(p: seq<bool>, q: seq<bool>, r: seq<bool>, s: seq<bool>)
    ensures (p + (q + r)) + s == (p + q) + (r + s)
  {
  }

  ghost function WindupBytes(c: seq<byte>, b: nat, v: nat): (r: seq<byte>)
    requires v <= 16 && b < Pow2(v)
  {
    Pow2Mono(v, 16);
    Pow2Values();
    if v > 8 then c + WordBytes(b)
    else if v > 0 then (Pow2Mono(v, 8); c + [b])
    else c
  }

  lemma PadBits(b: nat, v: nat, n: nat)
    requires b < Pow2(v) && v <= n
    ensures Lsb(b, n) == Lsb(b, v) + Lsb(0, n - v)
  {
    LsbConcat(b, 0, v, n - v);
    ShlZero(v);
  }

  lemma {:induction false} ShlZero(v: nat)
    ensures Shl(0, v) == 0
  {
    if v > 0 { ShlZero(v - 1); }
  }

  lemma Windup(c: seq<byte>, b: nat, v: nat)
    requires v <= 16 && b < Pow2(v)
    ensures ByteBits(WindupBytes(c, b, v)) == Padded(ByteBits(c) + Lsb(b, v))
  {
    hide Lsb, ByteBits, Pow2, WordBytes;
    var s := ByteBits(c) + Lsb(b, v);
    Pow2Values();
    if v > 8 {
      Pow2Mono(v, 16);
      WordBits(c, b);
      PadBits(b, v, 16);
      assert ByteBits(c) + (Lsb(b, v) + Lsb(0, 16 - v)) == s + Lsb(0, 16 - v);
      PadTo(s, |c|, v - 8);
    } else if v > 0 {
      Pow2Mono(v, 8);
      ByteBitsPush(c, b);
      PadBits(b, v, 8);
      assert ByteBits(c) + (Lsb(b, v) + Lsb(0, 8 - v)) == s + Lsb(0, 8 - v);
      PadTo(s, |c|, v);
    } else {
      assert s == ByteBits(c);
    }
  }

  lemma PadTo(s: seq<bool>, n: nat, v: nat)
    requires 0 < v <= 8 && (|s| == 8 * n + v || |s| == 8 * n + 8 + v)
    ensures Padded(s) == s + Lsb(0, 8 - v)
  {
    assert |s| % 8 == v % 8;
    if v == 8 { assert s + [] == s; }
  }

  lemma CopiedBits(s: seq<byte>, buf: seq<byte>)
    requires |buf| < 0x10000
    ensures ByteBits(s + WordBytes(|buf|) + WordBytes(0xffff - |buf|) + buf)
            == ByteBits(s) + Lsb(|buf|, 16) + Lsb(0xffff - |buf|, 16) + ByteBits(buf)
  {
    var s1 := s + WordBytes(|buf|);
    var s2 := s1 + WordBytes(0xffff - |buf|);
    WordBits(s, |buf|);
    WordBits(s1, 0xffff - |buf|);
    ByteBitsConcat(s2, buf);
  }
}
