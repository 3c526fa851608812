/** A specification decoder for the "deflate" compressed data format, written
    from section 3.2 of RFC 1951 and independent of the compressor. The stream
    is a bit string (bytes least significant bit first) read from a position. */
module Inflate {
  import opened Bits
  import opened Canonical

  // Section 3.2.5: length codes 257..285 and distance codes 0..29.
  const LENGTH_BASE: seq<nat> := [
    3, 4, 5, 6, 7, 8, 9, 10, 11, 13, 15, 17, 19, 23, 27, 31, 35, 43, 51, 59,
    67, 83, 99, 115, 131, 163, 195, 227, 258]
  const LENGTH_EXTRA: seq<nat> := [
    0, 0, 0, 0, 0, 0, 0, 0, 1, 1, 1, 1, 2, 2, 2, 2, 3, 3, 3, 3, 4, 4, 4, 4, 5, 5, 5, 5, 0]
  const DIST_BASE: seq<nat> := [
    1, 2, 3, 4, 5, 7, 9, 13, 17, 25, 33, 49, 65, 97, 129, 193, 257, 385, 513, 769,
    1025, 1537, 2049, 3073, 4097, 6145, 8193, 12289, 16385, 24577]
  const DIST_EXTRA: seq<nat> := [
    0, 0, 0, 0, 1, 1, 2, 2, 3, 3, 4, 4, 5, 5, 6, 6, 7, 7, 8, 8, 9, 9, 10, 10, 11, 11, 12, 12, 13, 13]

  // Section 3.2.7: the order in which code length code lengths are sent.
  const CL_ORDER: seq<nat> := [16, 17, 18, 0, 8, 7, 9, 6, 10, 5, 11, 4, 12, 3, 13, 2, 14, 1, 15]

  const END_OF_BLOCK: nat := 256

  datatype Item = Literal(b: byte) | Match(len: nat, dist: nat) | EndOfBlock

  /** An n-bit number, least significant bit first. */
  function Number(bits: seq<bool>, pos: nat, n: nat): (r: Option<nat>)
    ensures r.Some? ==> pos + n <= |bits|
  {
    if pos + n <= |bits| then Some(LsbValue(bits[pos..pos + n])) else None
  }

  /** The first symbol, from s on, whose code stands at pos. */
  function SymbolFrom(lens: seq<nat>, bits: seq<bool>, pos: nat, s: nat): (r: Option<nat>)
    requires s <= |lens|
    ensures r.Some? ==> s <= r.value < |lens| && lens[r.value] > 0 && At(bits, pos, CodeBits(lens, r.value))
    ensures r.None? ==> forall t :: s <= t < |lens| && lens[t] > 0 ==> !At(bits, pos, CodeBits(lens, t))
    decreases |lens| - s
  {
    if s == |lens| then None
    else if lens[s] > 0 && At(bits, pos, CodeBits(lens, s)) then Some(s)
    else SymbolFrom(lens, bits, pos, s + 1)
  }

  /** The symbol whose Huffman code stands at pos. */
  function Symbol(lens: seq<nat>, bits: seq<bool>, pos: nat): (r: Option<nat>)
  {
    SymbolFrom(lens, bits, pos, 0)
  }

  /** A set of code lengths no decoder can accept uses more than the whole code space. */
  predicate Decodable(lens: seq<nat>, max: nat)
  {
    Bounded(lens, max) && Kraft(lens, max, |lens|) <= Pow2(max)
  }

  /** One literal, <length, distance> pair or end-of-block mark, and the position after it. */
  function ReadItem(ll: seq<nat>, dl: seq<nat>, bits: seq<bool>, pos: nat): (r: Option<(Item, nat)>)
    ensures r.Some? ==> pos < r.value.1 <= |bits|
  {
    var s :- Symbol(ll, bits, pos);
    var p := pos + ll[s];
    if s < 256 then Some((Literal(s), p))
    else if s == END_OF_BLOCK then Some((EndOfBlock, p))
    else if s > 285 then None
    else
      var xl := LENGTH_EXTRA[s - 257];
      var e :- Number(bits, p, xl);
      var d :- Symbol(dl, bits, p + xl);
      if d > 29 then None
      else
        var q := p + xl + dl[d];
        var f :- Number(bits, q, DIST_EXTRA[d]);
        Some((Match(LENGTH_BASE[s - 257] + e, DIST_BASE[d] + f), q + DIST_EXTRA[d]))
  }

  /** Append len bytes, each taken dist bytes back; source and copy may overlap. */
  function Copy(out: seq<byte>, dist: nat, len: nat): (r: seq<byte>)
    requires 1 <= dist <= |out|
    decreases len
  {
    if len == 0 then out else Copy(out + [out[|out| - dist]], dist, len - 1)
  }

  /** Items up to the end-of-block mark, applied to the output so far. */
  function Data(ll: seq<nat>, dl: seq<nat>, bits: seq<bool>, pos: nat, out: seq<byte>): (r: Option<(seq<byte>, nat)>)
    ensures r.Some? ==> pos < r.value.1 <= |bits|
    decreases |bits| - pos
  {
    var (item, p) :- ReadItem(ll, dl, bits, pos);
    match item
    case Literal(b) => Data(ll, dl, bits, p, out + [b])
    case Match(len, dist) => if dist > |out| || dist < 1 then None else Data(ll, dl, bits, p, Copy(out, dist, len))
    case EndOfBlock => Some((out, p))
  }

  function Repeat(x: nat, n: nat): (r: seq<nat>)
    ensures |r| == n && forall i :: 0 <= i < n ==> r[i] == x
  {
    seq(n, _ => x)
  }

  /** Code lengths in run-length form (section 3.2.7) until n are known. */
  function Lengths(cl: seq<nat>, bits: seq<bool>, pos: nat, n: nat, acc: seq<nat>): (r: Option<(seq<nat>, nat)>)
    ensures r.Some? ==> pos <= r.value.1 && |r.value.0| == n && (pos <= |bits| ==> r.value.1 <= |bits|)
    decreases n - |acc|
  {
    if |acc| == n then Some((acc, pos))
    else if |acc| > n then None
    else
      var s :- Symbol(cl, bits, pos);
      var p := pos + cl[s];
      if s < 16 then Lengths(cl, bits, p, n, acc + [s])
      else if s == 16 then
        var e :- Number(bits, p, 2);
        if acc == [] then None
        else Lengths(cl, bits, p + 2, n, acc + Repeat(acc[|acc| - 1], 3 + e))
      else if s == 17 then
        var e :- Number(bits, p, 3);
        Lengths(cl, bits, p + 3, n, acc + Repeat(0, 3 + e))
      else if s == 18 then
        var e :- Number(bits, p, 7);
        Lengths(cl, bits, p + 7, n, acc + Repeat(0, 11 + e))
      else None
  }

  /** The first k code length code lengths, three bits each, in CL_ORDER; the rest are 0. */
  function CodeLengthLengths(bits: seq<bool>, pos: nat, k: nat): (r: seq<nat>)
    requires k <= 19 && pos + 3 * k <= |bits|
    ensures |r| == 19
  {
    if k == 0 then Repeat(0, 19)
    else
      CodeLengthLengths(bits, pos, k - 1)[CL_ORDER[k - 1] := LsbValue(bits[pos + 3 * (k - 1)..pos + 3 * k])]
  }

  /** The two code tables at the head of a dynamic block. */
  function Tables(bits: seq<bool>, pos: nat): (r: Option<(seq<nat>, seq<nat>, nat)>)
    ensures r.Some? ==> pos < r.value.2 <= |bits|
  {
    var hlit :- Number(bits, pos, 5);
    var hdist :- Number(bits, pos + 5, 5);
    var hclen :- Number(bits, pos + 10, 4);
    var k := hclen + 4;
    if k > 19 || pos + 14 + 3 * k > |bits| then None
    else
      var cl := CodeLengthLengths(bits, pos + 14, k);
      if !Decodable(cl, 7) then None
      else
        var (all, p) :- Lengths(cl, bits, pos + 14 + 3 * k, hlit + 257 + hdist + 1, []);
        var ll, dl := all[..hlit + 257], all[hlit + 257..];
        if Decodable(ll, 15) && Decodable(dl, 15) then Some((ll, dl, p)) else None
  }

  /** Section 3.2.6: the fixed literal/length code. */
  function FixedLengths(): (r: seq<nat>)
    ensures |r| == 288
  {
    seq(288, i => if i < 144 then 8 else if i < 256 then 9 else if i < 280 then 7 else 8)
  }

  /** Section 3.2.6: the fixed distance code. */
  function FixedDistances(): (r: seq<nat>)
    ensures |r| == 32
  {
    Repeat(5, 32)
  }

  function ByteAlign(pos: nat): (r: nat)
    ensures pos <= r < pos + 8 && r % 8 == 0
  {
    if pos % 8 == 0 then pos else pos + 8 - pos % 8
  }

  function Bytes(bits: seq<bool>, pos: nat, n: nat): (r: seq<byte>)
    requires pos + 8 * n <= |bits|
    ensures |r| == n
  {
    if n == 0 then []
    else Bytes(bits, pos, n - 1) + [LsbByte(bits[pos + 8 * (n - 1)..pos + 8 * n])]
  }

  function LsbByte(b: seq<bool>): (r: byte)
    requires |b| == 8
  {
    LsbValueBound(b);
    assert Pow2(8) == 256;
    LsbValue(b)
  }

  lemma {:induction false} LsbValueBound(b: seq<bool>)
    ensures LsbValue(b) < Pow2(|b|)
  {
    if b != [] { LsbValueBound(b[1..]); }
  }

  /** Section 3.2.4: a stored block. */
  function Stored(bits: seq<bool>, pos: nat, out: seq<byte>): (r: Option<(seq<byte>, nat)>)
    ensures r.Some? ==> pos < r.value.1 <= |bits|
  {
    var p := ByteAlign(pos);
    var len :- Number(bits, p, 16);
    var nlen :- Number(bits, p + 16, 16);
    if len + nlen != 0xffff || p + 32 + 8 * len > |bits| then None
    else Some((out + Bytes(bits, p + 32, len), p + 32 + 8 * len))
  }

  /** Section 3.2.3: one block after its first bit. */
  function Block(bits: seq<bool>, pos: nat, out: seq<byte>): (r: Option<(seq<byte>, nat)>)
    ensures r.Some? ==> pos < r.value.1 <= |bits|
  {
    var kind :- Number(bits, pos, 2);
    match kind
    case 0 => Stored(bits, pos + 2, out)
    case 1 => Data(FixedLengths(), FixedDistances(), bits, pos + 2, out)
    case 2 =>
      var (ll, dl, p) :- Tables(bits, pos + 2);
      Data(ll, dl, bits, p, out)
    case _ => None
  }

  /** Blocks up to and including the one marked final: the output and the position after it. */
  function Stream(bits: seq<bool>, pos: nat, out: seq<byte>): (r: Option<(seq<byte>, nat)>)
    ensures r.Some? ==> pos < r.value.1 <= |bits|
    decreases |bits| - pos
  {
    var final :- Number(bits, pos, 1);
    var (out', p) :- Block(bits, pos + 1, out);
    if final == 1 then Some((out', p)) else Stream(bits, p, out')
  }

  // ---- reading back what was written ----

  /** A code standing at pos is read as its symbol. */
  lemma SymbolReads(lens: seq<nat>, max: nat, bits: seq<bool>, pos: nat, s: nat)
    requires Decodable(lens, max) && s < |lens| && lens[s] > 0 && At(bits, pos, CodeBits(lens, s))
    ensures Symbol(lens, bits, pos) == Some(s)
  {
    hide CodeBits, Kraft, Pow2;
    var r := SymbolFrom(lens, bits, pos, 0);
    assert r.Some?;
    var t := r.value;
    if t != s {
      OneIsPrefix(bits, pos, CodeBits(lens, s), CodeBits(lens, t));
      PrefixFree(lens, max, s, t);
      PrefixFree(lens, max, t, s);
    }
  }

  lemma OneIsPrefix(bits: seq<bool>, pos: nat, x: seq<bool>, y: seq<bool>)
    requires At(bits, pos, x) && At(bits, pos, y)
    ensures x <= y || y <= x
  {
    if |x| <= |y| {
      assert y[..|x|] == bits[pos..pos + |x|];
    } else {
      assert x[..|y|] == bits[pos..pos + |y|];
    }
  }

  /** A number standing at pos is read as itself. */
  lemma NumberReads(bits: seq<bool>, pos: nat, v: nat, n: nat)
    requires v < Pow2(n) && At(bits, pos, Lsb(v, n))
    ensures Number(bits, pos, n) == Some(v)
  {
    LsbRoundTrip(v, n);
  }
}
